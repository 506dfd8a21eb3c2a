/** Which rows a WHERE clause selects, said of the values themselves (src/planner/executor.rs). */
module Conditions {
  import opened Keys
  import opened Wire
  import opened TextOrder
  import opened RowCodec
  import opened Grammar
  import opened Records
  import opened Tables
  import opened Queries

  // ------------------------------------------------------------------
  // The order of values.
  // ------------------------------------------------------------------

  /** Numbers by size, texts by bytes, false before true, and NULL before everything else. */
  predicate Before(x: Value, y: Value) {
    || (x.Int? && y.Int? && x.v < y.v)
    || (x.Str? && y.Str? && BytesLess(Utf8(x.s), Utf8(y.s)))
    || (x.Bool? && y.Bool? && !x.b && y.b)
    || (x.Null? && !y.Null?)
  }

  predicate SameKind(x: Value, y: Value) {
    (x.Int? && y.Int?) || (x.Str? && y.Str?) || (x.Bool? && y.Bool?) || (x.Null? && y.Null?) || (x.Float? && y.Float?)
  }

  /** Values of unlike kinds, NULL apart, count as equal. */
  predicate Alike(x: Value, y: Value) {
    x == y || (!x.Null? && !y.Null? && !SameKind(x, y))
  }

  /** A float against a number: the one comparison that is left to the environment. */
  predicate FloatSided(x: Value, y: Value) {
    (x.Float? && (y.Float? || y.Int?)) || (x.Int? && y.Float?)
  }

  predicate IsComparison(op: BinOp) {
    op == OpEq || op == OpNotEq || op == OpLt || op == OpLtEq || op == OpGt || op == OpGtEq
  }

  predicate Related(op: BinOp, x: Value, y: Value) {
    match op
    case OpLt => Before(x, y)
    case OpLtEq => Before(x, y) || Alike(x, y)
    case OpGt => Before(y, x)
    case OpGtEq => Before(y, x) || Alike(x, y)
    case OpEq => Alike(x, y)
    case OpNotEq => Before(x, y) || Before(y, x)
    case _ => false
  }

  lemma {:induction false} BytesOrder(s: string, t: string)
    ensures TextLess(s, t) <==> BytesLess(Utf8(s), Utf8(t))
    ensures (if TextLess(s, t) then 1 else 0) + (if TextLess(t, s) then 1 else 0) + (if s == t then 1 else 0) == 1
  {
    hide Utf8, BytesLess;
    TextsAsBytes(s, t);
    assert TextLess(s, t) ==> TextRank(s) < TextRank(t);
    assert TextLess(t, s) ==> TextRank(t) < TextRank(s);
    assert !TextLess(s, t) ==> s == t || TextRank(t) < TextRank(s);
  }

  /** Of two values exactly one comes before the other, or they count as equal. */
  lemma {:induction false} Compares(env: Env, x: Value, y: Value)
    requires !FloatSided(x, y)
    ensures (if Before(x, y) then 1 else 0) + (if Before(y, x) then 1 else 0) + (if Alike(x, y) then 1 else 0) == 1
    ensures Compared(env, x, y) == if Before(x, y) then Lower else if Before(y, x) then Higher else Same
  {
    hide TextLess, Utf8, BytesLess;
    if x.Str? && y.Str? {
      BytesOrder(x.s, y.s);
      BytesOrder(y.s, x.s);
    }
  }

  lemma {:induction false} AppliesAs(env: Env, op: BinOp, x: Value, y: Value)
    requires IsComparison(op) && !FloatSided(x, y)
    ensures Truthy(Apply(env, op, x, y)) <==> Related(op, x, y)
  {
    hide Before, Alike, Compared;
    Compares(env, x, y);
  }

  // ------------------------------------------------------------------
  // Columns and literals.
  // ------------------------------------------------------------------

  /** Column `c` is the first of its name, and the row has a value there. */
  ghost predicate Names(columns: seq<string>, c: nat, row: Row) {
    c < |columns| && c < |row| && forall k :: 0 <= k < c ==> columns[k] != columns[c]
  }

  function ColumnNamed(columns: seq<string>, c: nat): Expr
    requires c < |columns|
  {
    Column(None, columns[c])
  }

  predicate IsLiteral(e: Expr) { e.LitInt? || e.LitStr? || e.LitBool? || e.LitNull? }

  function ValueOf(e: Expr): Value
    requires IsLiteral(e)
  {
    match e
    case LitInt(i) => Int(i)
    case LitStr(s) => Str(s)
    case LitBool(b) => Bool(b)
    case LitNull => Null
  }

  lemma {:induction false} ColumnEval(env: Env, columns: seq<string>, c: nat, row: Row)
    requires Names(columns, c, row)
    ensures Eval(env, ColumnNamed(columns, c), row, columns) == Some(row[c])
  {
    var i := IndexOf(columns, columns[c]);
    assert i == Some(c);
  }

  lemma {:induction false} LiteralEval(env: Env, columns: seq<string>, e: Expr, row: Row)
    requires IsLiteral(e)
    ensures Eval(env, e, row, columns) == Some(ValueOf(e))
  {
  }

  /** A column against a literal: a row passes if and only if its value stands so to the literal. */
  lemma {:induction false} ColumnAgainst(env: Env, columns: seq<string>, c: nat, op: BinOp, lit: Expr, row: Row)
    requires Names(columns, c, row) && IsComparison(op) && IsLiteral(lit) && !FloatSided(row[c], ValueOf(lit))
    ensures Passes(env, columns, Some(Binary(ColumnNamed(columns, c), op, lit)), row) <==>
      Related(op, row[c], ValueOf(lit))
  {
    hide Apply, Related, Truthy;
    ColumnEval(env, columns, c, row);
    LiteralEval(env, columns, lit, row);
    AppliesAs(env, op, row[c], ValueOf(lit));
  }

  /** The same for integers, in numbers. */
  lemma {:induction false} NumbersAgainst(env: Env, columns: seq<string>, c: nat, n: I64, row: Row)
    requires Names(columns, c, row) && row[c].Int?
    ensures var x, col := row[c].v, ColumnNamed(columns, c);
      && (Passes(env, columns, Some(Binary(col, OpLt, LitInt(n))), row) <==> x < n)
      && (Passes(env, columns, Some(Binary(col, OpLtEq, LitInt(n))), row) <==> x <= n)
      && (Passes(env, columns, Some(Binary(col, OpGt, LitInt(n))), row) <==> x > n)
      && (Passes(env, columns, Some(Binary(col, OpGtEq, LitInt(n))), row) <==> x >= n)
      && (Passes(env, columns, Some(Binary(col, OpEq, LitInt(n))), row) <==> x == n)
      && (Passes(env, columns, Some(Binary(col, OpNotEq, LitInt(n))), row) <==> x != n)
  {
    hide Passes;
    ColumnAgainst(env, columns, c, OpLt, LitInt(n), row);
    ColumnAgainst(env, columns, c, OpLtEq, LitInt(n), row);
    ColumnAgainst(env, columns, c, OpGt, LitInt(n), row);
    ColumnAgainst(env, columns, c, OpGtEq, LitInt(n), row);
    ColumnAgainst(env, columns, c, OpEq, LitInt(n), row);
    ColumnAgainst(env, columns, c, OpNotEq, LitInt(n), row);
  }

  // ------------------------------------------------------------------
  // Conditions.
  // ------------------------------------------------------------------

  /** Made of literals, columns there are, comparisons, connectives and tests: nothing that can fail. */
  predicate Known(columns: seq<string>, e: Expr) {
    match e
    case LitInt(_) => true
    case LitStr(_) => true
    case LitBool(_) => true
    case LitNull => true
    case Column(_, name) => name in columns
    case Binary(l, op, r) =>
      op !in {OpAdd, OpSub, OpMul, OpDiv, OpMod, OpConcat} && Known(columns, l) && Known(columns, r)
    case Unary(OpNot, p) => Known(columns, p)
    case IsNull(p, _) => Known(columns, p)
    case Between(p, l, h, _) => Known(columns, p) && Known(columns, l) && Known(columns, h)
    case InList(p, _, _) => Known(columns, p)
    case _ => false
  }

  lemma {:induction false} KnownEvaluates(env: Env, columns: seq<string>, e: Expr, row: Row)
    requires Known(columns, e)
    ensures Eval(env, e, row, columns).Some?
    decreases e
  {
    hide Apply, Compared, Truthy;
    match e {
      case Binary(l, _, r) =>
        KnownEvaluates(env, columns, l, row);
        KnownEvaluates(env, columns, r, row);
      case Unary(OpNot, p) => KnownEvaluates(env, columns, p, row);
      case IsNull(p, _) => KnownEvaluates(env, columns, p, row);
      case Between(p, l, h, _) =>
        KnownEvaluates(env, columns, p, row);
        KnownEvaluates(env, columns, l, row);
        KnownEvaluates(env, columns, h, row);
      case InList(p, _, _) => KnownEvaluates(env, columns, p, row);
      case _ =>
    }
  }

  /** AND, OR and NOT of conditions. */
  lemma {:induction false} Connectives(env: Env, columns: seq<string>, a: Expr, b: Expr, row: Row)
    requires Known(columns, a) && Known(columns, b)
    ensures Passes(env, columns, Some(Binary(a, OpAnd, b)), row) <==>
      Passes(env, columns, Some(a), row) && Passes(env, columns, Some(b), row)
    ensures Passes(env, columns, Some(Binary(a, OpOr, b)), row) <==>
      Passes(env, columns, Some(a), row) || Passes(env, columns, Some(b), row)
    ensures Passes(env, columns, Some(Unary(OpNot, a)), row) <==> !Passes(env, columns, Some(a), row)
  {
    KnownEvaluates(env, columns, a, row);
    KnownEvaluates(env, columns, b, row);
    hide Known, Compared;
    BothSides(env, columns, a, b, row);
  }

  lemma {:induction false} BothSides(env: Env, columns: seq<string>, a: Expr, b: Expr, row: Row)
    requires Eval(env, a, row, columns).Some? && Eval(env, b, row, columns).Some?
    ensures var x, y := Eval(env, a, row, columns).value, Eval(env, b, row, columns).value;
      && Eval(env, Binary(a, OpAnd, b), row, columns) == Some(Bool(Truthy(x) && Truthy(y)))
      && Eval(env, Binary(a, OpOr, b), row, columns) == Some(Bool(Truthy(x) || Truthy(y)))
      && Eval(env, Unary(OpNot, a), row, columns) == Some(Bool(!Truthy(x)))
  {
    hide Truthy, Compared;
  }

  /** A conjunction passes only if both sides can be evaluated and pass. */
  lemma {:induction false} Conjunction(env: Env, columns: seq<string>, a: Expr, b: Expr, row: Row)
    ensures Passes(env, columns, Some(Binary(a, OpAnd, b)), row) <==>
      Passes(env, columns, Some(a), row) && Passes(env, columns, Some(b), row)
  {
    hide Compared;
    if Eval(env, a, row, columns).Some? && Eval(env, b, row, columns).Some? {
      BothSides(env, columns, a, b, row);
    }
  }

  /** A column by itself: numbers but zero, texts but the empty one, true, and not NULL. */
  lemma {:induction false} ColumnAlone(env: Env, columns: seq<string>, c: nat, row: Row)
    requires Names(columns, c, row)
    ensures Passes(env, columns, Some(ColumnNamed(columns, c)), row) <==>
      || (row[c].Int? && row[c].v != 0)
      || (row[c].Str? && row[c].s != "")
      || (row[c].Bool? && row[c].b)
      || (row[c].Float? && row[c].bits != 0 && row[c].bits != 0x8000_0000_0000_0000)
  {
    ColumnEval(env, columns, c, row);
  }

  /** IS NULL, BETWEEN and IN of a column, with and without NOT. */
  lemma {:induction false} Tests(env: Env, columns: seq<string>, c: nat, low: Expr, high: Expr, es: seq<Expr>,
      negated: bool, row: Row)
    requires Names(columns, c, row) && IsLiteral(low) && IsLiteral(high)
    requires forall i :: 0 <= i < |es| ==> IsLiteral(es[i]) && !FloatSided(row[c], ValueOf(es[i]))
    requires !FloatSided(row[c], ValueOf(low)) && !FloatSided(row[c], ValueOf(high))
    ensures Passes(env, columns, Some(IsNull(ColumnNamed(columns, c), negated)), row) <==> row[c].Null? != negated
    ensures Passes(env, columns, Some(Between(ColumnNamed(columns, c), low, high, negated)), row) <==>
      (!Before(row[c], ValueOf(low)) && !Before(ValueOf(high), row[c])) != negated
    ensures Passes(env, columns, Some(InList(ColumnNamed(columns, c), es, negated)), row) <==>
      (exists i :: 0 <= i < |es| && Alike(row[c], ValueOf(es[i]))) != negated
  {
    hide Before, Alike, Compared;
    ColumnEval(env, columns, c, row);
    LiteralEval(env, columns, low, row);
    LiteralEval(env, columns, high, row);
    Compares(env, row[c], ValueOf(low));
    Compares(env, row[c], ValueOf(high));
    forall i | 0 <= i < |es|
      ensures SameAs(env, Eval(env, es[i], row, columns), row[c]) <==> Alike(row[c], ValueOf(es[i]))
    {
      LiteralEval(env, columns, es[i], row);
      Compares(env, row[c], ValueOf(es[i]));
    }
  }

  // ------------------------------------------------------------------
  // SELECT, DELETE and UPDATE of a stored table.
  // ------------------------------------------------------------------

  /** The key of a row is its first value, an integer or a text. */
  lemma {:induction false} FirstIsKey(row: Row)
    ensures RowKey(row).Some? <==> row != [] && (row[0].Int? || row[0].Str?)
    ensures row != [] && row[0].Int?
        ==> RowKey(row) == Some(Key.Integer(row[0].v)) && KeyOf(row) == Key.Integer(row[0].v)
    ensures row != [] && row[0].Str? ==> RowKey(row) == Some(Key.Text(row[0].s)) && KeyOf(row) == Key.Text(row[0].s)
  {
  }

  /** The first values ascend: integers as numbers, before all texts, and texts by their bytes. */
  ghost predicate KeysAscend(rows: seq<Row>) {
    forall i, j :: 0 <= i < j < |rows| ==> FirstBelow(rows[i], rows[j])
  }

  predicate FirstBelow(r: Row, s: Row) {
    && r != [] && s != []
    && ((r[0].Int? && s[0].Int?) || (r[0].Str? && s[0].Str?) ==> Before(r[0], s[0]))
    && (s[0].Int? ==> r[0].Int?)
  }

  lemma {:induction false} Ascend(rows: seq<Row>, arity: nat)
    requires AllOk(rows, arity) && InOrder(rows)
    ensures KeysAscend(rows)
  {
    hide KeyOf, RowKey, FirstBelow;
    forall i, j | 0 <= i < j < |rows|
      ensures FirstBelow(rows[i], rows[j])
    {
      assert RowOk(rows[i], arity) && RowOk(rows[j], arity);
      BelowAs(rows[i], rows[j]);
    }
  }

  lemma {:induction false} BelowAs(r: Row, s: Row)
    requires RowKey(r).Some? && RowKey(s).Some? && Rank(KeyOf(r)) < Rank(KeyOf(s))
    ensures FirstBelow(r, s)
  {
    hide Rank, Less, TextLess, Utf8, BytesLess;
    FirstIsKey(r);
    FirstIsKey(s);
    RanksCompare(KeyOf(r), KeyOf(s));
    KeyOrder(KeyOf(r), KeyOf(s));
  }

  lemma {:induction false} RanksCompare(a: Key, b: Key)
    requires Rank(a) < Rank(b)
    ensures Less(a, b)
  {
    hide Rank, TextLess;
    assert !Less(a, b) ==> a == b || Rank(b) < Rank(a);
  }

  lemma {:induction false} PartOk(rows: seq<Row>, some: seq<Row>, arity: nat)
    requires AllOk(rows, arity) && forall r :: r in some ==> r in rows
    ensures AllOk(some, arity)
  {
    hide RowOk;
    forall i | 0 <= i < |some|
      ensures RowOk(some[i], arity)
    {
      assert some[i] in some;
      var j :| 0 <= j < |rows| && rows[j] == some[i];
    }
  }

  lemma {:induction false} RejectedIs(env: Env, columns: seq<string>, filter: Option<Expr>, rows: seq<Row>)
    requires InOrder(rows)
    ensures InOrder(Rejected(env, columns, filter, rows))
    ensures forall r :: r in Rejected(env, columns, filter, rows) <==> r in rows && !Passes(env, columns, filter, r)
  {
    hide Passes, KeyOf;
    if rows != [] {
      Later(rows);
      RejectedIs(env, columns, filter, rows[1..]);
      assert rows == [rows[0]] + rows[1..];
      var rest := Rejected(env, columns, filter, rows[1..]);
      forall i | 0 <= i < |rest|
        ensures Rank(KeyOf(rows[0])) < Rank(KeyOf(rest[i]))
      {
        assert rest[i] in rest;
        var k :| 0 <= k < |rows[1..]| && rows[1..][k] == rest[i];
      }
    }
  }

  lemma {:induction false} SelectedInOrder(env: Env, columns: seq<string>, filter: Option<Expr>, rows: seq<Row>)
    requires InOrder(rows)
    ensures InOrder(Select(env, columns, filter, rows))
  {
    hide Passes, KeyOf;
    if rows != [] {
      Later(rows);
      SelectedInOrder(env, columns, filter, rows[1..]);
      SelectIs(env, columns, filter, rows[1..]);
      var rest := Select(env, columns, filter, rows[1..]);
      forall i | 0 <= i < |rest|
        ensures Rank(KeyOf(rows[0])) < Rank(KeyOf(rest[i]))
      {
        assert rest[i] in rest;
        var k :| 0 <= k < |rows[1..]| && rows[1..][k] == rest[i];
      }
    }
  }

  /** The condition can be decided on every row: the column is there, and no float meets a number. */
  ghost predicate Decides(columns: seq<string>, c: nat, lit: Expr, rows: seq<Row>) {
    IsLiteral(lit) && forall r :: r in rows ==> Names(columns, c, r) && !FloatSided(r[c], ValueOf(lit))
  }

  lemma {:induction false} PassesAs(env: Env, columns: seq<string>, c: nat, op: BinOp, lit: Expr, rows: seq<Row>)
    requires c < |columns| && Decides(columns, c, lit, rows) && IsComparison(op)
    ensures forall r :: r in rows ==>
      c < |r| && (Passes(env, columns, Some(Binary(ColumnNamed(columns, c), op, lit)), r) <==>
                  Related(op, r[c], ValueOf(lit)))
  {
    hide Passes, Related;
    forall r | r in rows
      ensures c < |r|
      ensures Passes(env, columns, Some(Binary(ColumnNamed(columns, c), op, lit)), r) <==>
        Related(op, r[c], ValueOf(lit))
    {
      ColumnAgainst(env, columns, c, op, lit, r);
    }
  }

  /** Only an equality on the first column is looked up. */
  lemma {:induction false} PlainScan(columns: seq<string>, c: nat, op: BinOp, lit: Expr, rows: seq<Row>)
    requires c < |columns| && IsLiteral(lit) && (op == OpEq ==> columns[c] != columns[0])
    ensures Queries.Sound(columns, Some(Binary(ColumnNamed(columns, c), op, lit)), rows)
  {
  }

  /** SELECT * WHERE column op literal: exactly the rows whose value stands so to the literal, in the
      order of their keys. */
  method SelectCompared(t: Table, env: Env, columns: seq<string>, c: nat, op: BinOp, lit: Expr)
    returns (rows: Option<seq<Row>>)
    requires t.Valid() && c < |columns| && IsComparison(op) && Decides(columns, c, lit, t.rows)
    requires op == OpEq ==> columns[c] != columns[0]
    ensures rows.Some? && KeysAscend(rows.value)
    ensures forall r :: r in rows.value <==> r in t.rows && c < |r| && Related(op, r[c], ValueOf(lit))
  {
    hide Table.Valid, Select, Passes, Related, InOrder, AllOk, KeysAscend, Decides, Queries.Sound;
    var filter := Some(Binary(ColumnNamed(columns, c), op, lit));
    assert IsLiteral(lit) by { LiteralIn(columns, c, lit, t.rows); }
    PlainScan(columns, c, op, lit, t.rows);
    t.Ordered();
    AllUsable(t);
    PassesAs(env, columns, c, op, lit, t.rows);
    SelectIs(env, columns, filter, t.rows);
    SelectedInOrder(env, columns, filter, t.rows);
    ghost var some := Select(env, columns, filter, t.rows);
    PartOk(t.rows, some, t.arity);
    Ascend(some, t.arity);
    rows := ExecSelect(t, env, columns, filter);
  }

  lemma {:induction false} LiteralIn(columns: seq<string>, c: nat, lit: Expr, rows: seq<Row>)
    requires Decides(columns, c, lit, rows)
    ensures IsLiteral(lit)
  {
  }

  /** DELETE WHERE column op literal: exactly the other rows stay. */
  method DeleteCompared(t: Table, env: Env, columns: seq<string>, c: nat, op: BinOp, lit: Expr)
    returns (count: Option<nat>)
    requires t.Valid() && c < |columns| && IsComparison(op) && Decides(columns, c, lit, t.rows)
    requires op == OpEq ==> columns[c] != columns[0]
    modifies t, t.tree, t.tree.store
    ensures t.Valid() && count.Some? && KeysAscend(t.rows)
    ensures forall r :: r in t.rows <==> r in old(t.rows) && c < |r| && !Related(op, r[c], ValueOf(lit))
  {
    hide Table.Valid, Select, Rejected, Passes, Related, InOrder, AllOk, KeysAscend, Decides, Queries.Sound;
    var filter := Some(Binary(ColumnNamed(columns, c), op, lit));
    assert IsLiteral(lit) by { LiteralIn(columns, c, lit, t.rows); }
    PlainScan(columns, c, op, lit, t.rows);
    t.Ordered();
    PassesAs(env, columns, c, op, lit, t.rows);
    RejectedIs(env, columns, filter, t.rows);
    count := DeleteWhere(t, env, columns, filter);
    t.Ordered();
    AllUsable(t);
    Ascend(t.rows, t.arity);
  }

  // ------------------------------------------------------------------
  // The key column compared with an integer or a text: one row at most.
  // ------------------------------------------------------------------

  /** The first value is the literal, an integer or a text. */
  ghost predicate HasFirst(r: Row, e: Expr) {
    r != [] && ((e.LitInt? && r[0] == Int(e.i)) || (e.LitStr? && r[0] == Str(e.text)))
  }

  lemma {:induction false} Found(rows: seq<Row>, k: Key)
    requires InOrder(rows)
    ensures FindRow(rows, k).Some? ==> FindRow(rows, k).value in rows && KeyOf(FindRow(rows, k).value) == k
    ensures forall r :: r in rows && KeyOf(r) == k ==> FindRow(rows, k) == Some(r)
  {
    hide KeyOf, Rank;
    if rows != [] {
      var rest := rows[1..];
      Later(rows);
      Found(rest, k);
      assert rows == [rows[0]] + rest;
      forall r | r in rest
        ensures KeyOf(r) != KeyOf(rows[0])
      {
        var i :| 0 <= i < |rest| && rest[i] == r;
      }
    }
  }

  lemma {:induction false} KeyAnswer(env: Env, columns: seq<string>, e: Expr, rows: seq<Row>, arity: nat)
    requires columns != [] && InOrder(rows) && AllOk(rows, arity)
    ensures var filter := Some(Binary(ColumnNamed(columns, 0), OpEq, e));
      var plan := PlanTableScan(columns, filter); var found := Answer(env, columns, plan, rows);
      && (found.Some? <==> e.LitInt? || e.LitStr?)
      && (found.Some? ==>
        && |found.value| <= 1 && (forall r :: r in found.value <==> r in rows && HasFirst(r, e))
        && Refiltered(env, columns, plan, filter, found.value) == found.value)
  {
    hide KeyOf, RowKey, RowOk;
    var filter := Some(Binary(ColumnNamed(columns, 0), OpEq, e));
    var plan := PlanTableScan(columns, filter);
    assert plan == IndexScan(columns[0], e);
    if e.LitInt? || e.LitStr? {
      var k := if e.LitInt? then Key.Integer(e.i) else Key.Text(e.text);
      assert ExprToKey(e) == Some(k);
      Found(rows, k);
      forall r | r in rows
        ensures HasFirst(r, e) <==> KeyOf(r) == k
      {
        Usable(rows, r, arity);
        FirstIsKey(r);
      }
    }
  }

  /** SELECT * WHERE key = expression: the row whose first value is that integer or text, if there is
      one; an expression that is neither is an error, although a scan would answer it. */
  method SelectKey(t: Table, env: Env, columns: seq<string>, e: Expr) returns (rows: Option<seq<Row>>)
    requires t.Valid() && columns != []
    ensures rows.Some? <==> e.LitInt? || e.LitStr?
    ensures rows.Some? ==> |rows.value| <= 1 && forall r :: r in rows.value <==> r in t.rows && HasFirst(r, e)
  {
    hide Table.Valid, Select, Answer, InOrder, AllOk, Queries.Sound, HasFirst, PlanTableScan, Refiltered;
    t.Ordered();
    AllUsable(t);
    KeyAnswer(env, columns, e, t.rows, t.arity);
    rows := ExecSelect(t, env, columns, Some(Binary(ColumnNamed(columns, 0), OpEq, e)));
  }

  /** DELETE WHERE key = expression: that row goes and no other. */
  method DeleteKey(t: Table, env: Env, columns: seq<string>, e: Expr) returns (count: Option<nat>)
    requires t.Valid() && columns != []
    modifies t, t.tree, t.tree.store
    ensures t.Valid() && (count.Some? <==> e.LitInt? || e.LitStr?)
    ensures count.None? ==> t.rows == old(t.rows)
    ensures count.Some? ==> forall r :: r in t.rows <==> r in old(t.rows) && !HasFirst(r, e)
  {
    hide Table.Valid, Select, Rejected, Answer, InOrder, AllOk, Queries.Sound, HasFirst, PlanTableScan, Refiltered,
      Kept, KeySet, KeyOf, RowKey;
    t.Ordered();
    AllUsable(t);
    var filter := Some(Binary(ColumnNamed(columns, 0), OpEq, e));
    ghost var rows, arity := t.rows, t.arity;
    KeyAnswer(env, columns, e, rows, arity);
    ghost var found := Answer(env, columns, PlanTableScan(columns, filter), rows);
    if found.Some? {
      KeptExactly(rows, found.value);
    }
    count := DeleteWhere(t, env, columns, filter);
  }

  /** The rows that are kept are those with other keys, hence all but the named ones. */
  lemma {:induction false} KeptExactly(rows: seq<Row>, gone: seq<Row>)
    requires InOrder(rows) && forall r :: r in gone ==> r in rows
    ensures forall r :: r in Kept(rows, KeySet(gone)) <==> r in rows && r !in gone
  {
    hide KeyOf, Kept;
    KeptIs(rows, KeySet(gone));
    forall r, s | r in rows && s in rows && KeyOf(r) == KeyOf(s)
      ensures r == s
    {
      Found(rows, KeyOf(r));
    }
  }

  lemma {:induction false} KeptIs(rows: seq<Row>, ks: set<Key>)
    ensures forall r :: r in Kept(rows, ks) <==> r in rows && KeyOf(r) !in ks
  {
    hide KeyOf;
    if rows != [] {
      KeptIs(rows[1..], ks);
      assert rows == [rows[0]] + rows[1..];
    }
  }

  /** The row after SET column = literal. */
  lemma {:induction false} SetLiteral(env: Env, columns: seq<string>, d: nat, lit: Expr, row: Row)
    requires Names(columns, d, row) && IsLiteral(lit)
    ensures NewRow(env, columns, [(columns[d], lit)], row) == row[d := ValueOf(lit)]
    ensures Assigned(env, columns, [(columns[d], lit)], row).Some?
  {
    LiteralEval(env, columns, lit, row);
    hide Eval;
    var sets := [(columns[d], lit)];
    assert IndexOf(columns, columns[d]) == Some(d);
    assert sets[..0] == [] && Assigned(env, columns, [], row) == Some(row);
    assert Assigned(env, columns, sets, row) == Some(row[d := ValueOf(lit)]);
  }

  /** UPDATE SET another column than the key to a literal WHERE column op literal: exactly the rows
      whose value stands so to the literal get it, and nothing else changes. */
  method UpdateCompared(t: Table, env: Env, columns: seq<string>, c: nat, op: BinOp, lit: Expr, d: nat, value: Expr)
    returns (count: Option<nat>)
    requires t.Valid() && !t.tree.store.file && c < |columns| && 0 < d < |columns| && columns[d] != columns[0]
    requires IsComparison(op) && Decides(columns, c, lit, t.rows) && (op == OpEq ==> columns[c] != columns[0])
    requires IsLiteral(value) && (value.LitStr? ==> |Utf8(value.text)| < 0x1_0000_0000)
    requires forall r :: r in t.rows ==> Names(columns, d, r)
    modifies t, t.tree, t.tree.store
    ensures t.Valid() && count.Some? && |t.rows| == |old(t.rows)|
    ensures forall i :: 0 <= i < |t.rows| ==>
      var r := old(t.rows)[i];
      c < |r| && d < |r| && t.rows[i] == if Related(op, r[c], ValueOf(lit)) then r[d := ValueOf(value)] else r
  {
    hide Table.Valid, Select, Passes, Related, InOrder, AllOk, Decides, Queries.Sound, Storable, NewRow, Assigned,
      RowKey, KeyOf, Moved, Stopped, RowOk, Utf8;
    var filter := Some(Binary(ColumnNamed(columns, c), op, lit));
    var sets := [(columns[d], value)];
    assert IsLiteral(lit) by { LiteralIn(columns, c, lit, t.rows); }
    PlainScan(columns, c, op, lit, t.rows);
    t.Ordered();
    AllUsable(t);
    PassesAs(env, columns, c, op, lit, t.rows);
    ghost var rows := t.rows;
    SetKeeps(columns, d, value);
    forall r | r in rows
      ensures NewRow(env, columns, sets, r) == r[d := ValueOf(value)] && Storable(NewRow(env, columns, sets, r))
      ensures !Fails(env, columns, sets, r)
    {
      Usable(rows, r, t.arity);
      SetLiteral(env, columns, d, value, r);
      SetStorable(r, d, value);
      NewRowKey(env, columns, sets, r);
    }
    count := UpdateWhere(t, env, columns, filter, sets);
    forall i | 0 <= i < |rows|
      ensures rows[i] in rows
    {
    }
  }

  lemma {:induction false} SetKeeps(columns: seq<string>, d: nat, value: Expr)
    requires 0 < d < |columns| && columns[d] != columns[0]
    ensures KeepsKey(columns, [(columns[d], value)])
  {
  }

  lemma {:induction false} SetStorable(row: Row, d: nat, value: Expr)
    requires Storable(row) && d < |row| && IsLiteral(value)
    requires value.LitStr? ==> |Utf8(value.text)| < 0x1_0000_0000
    ensures Storable(row[d := ValueOf(value)])
  {
    hide Utf8;
  }

  /** An equality with the first column, written either way round, is looked up; every other comparison
      is answered by a scan with the clause as its filter. */
  lemma {:induction false} PlannedAs(columns: seq<string>, name: string, op: BinOp, e: Expr)
    requires columns != [] && !(e.Column? && e.table.None?)
    ensures var col := Column(None, name);
      && PlanTableScan(columns, Some(Binary(col, op, e))) ==
           (if op == OpEq && name == columns[0] then IndexScan(columns[0], e) else SeqScan(Some(Binary(col, op, e))))
      && PlanTableScan(columns, Some(Binary(e, op, col))) ==
           (if op == OpEq && name == columns[0] then IndexScan(columns[0], e) else SeqScan(Some(Binary(e, op, col))))
    ensures PlanTableScan(columns, None) == SeqScan(None)
  {
  }
}
