/** The parser decides the grammar, the grammar is unambiguous, and parsing undoes printing. */
module Printing {
  import opened Keys
  import opened Grammar
  import opened Descent
  import opened Complete
  import opened Sound

  /** Before a token that cannot extend an expression, the parser reads `e` up to `j` exactly if
      the grammar derives `e` from the tokens up to `j`. */
  lemma {:induction false} ParsesExactly(up: string -> string, ts: seq<Token>, i: nat, j: nat, e: Expr)
    requires i <= |ts| && Reach(Peek(ts, j)) < 0
    ensures Read(up, ts, i, 0) == Done(e, j) <==> exists s :: Derives(up, ts, i, j, e, s, 0)
  {
    hide Read, Spell, Meaning, Formed, LevelOf;
    if Read(up, ts, i, 0) == Done(e, j) {
      var s := ReadSound(up, ts, i, 0);
    }
    if s :| Derives(up, ts, i, j, e, s, 0) {
      DerivedHere(up, ts, i, j, e, s);
      ReadBack(up, ts, i, s, 0);
    }
  }

  lemma {:induction false} DerivedHere(up: string -> string, ts: seq<Token>, i: nat, j: nat, e: Expr, s: Syn)
    requires Derives(up, ts, i, j, e, s, 0)
    ensures Here(ts, i, Spell(s)) && i + |Spell(s)| == j && Formed(s) && Meaning(up, s) == e
  {
    hide Spell, Meaning, Formed, LevelOf;
  }

  /** Two derivations of the same tokens mean the same. */
  lemma {:induction false} Unambiguous(up: string -> string, s: Syn, t: Syn)
    requires Formed(s) && Formed(t) && Spell(s) == Spell(t)
    ensures Meaning(up, s) == Meaning(up, t)
  {
    hide Read, Spell, Meaning, Formed, LevelOf;
    var ts := Spell(s);
    assert Here(ts, 0, ts);
    ReadBack(up, ts, 0, s, 0);
    ReadBack(up, ts, 0, t, 0);
  }

  // ------------------------------------------------------------------
  // Printing, with every parenthesis or with only those the precedence needs.
  // ------------------------------------------------------------------

  function TokenOf(op: BinOp): (t: Token)
    ensures InfixOp(t).Some? && InfixOp(t).value.1 == op
  {
    match op
    case OpOr => KwOr
    case OpAnd => KwAnd
    case OpEq => Eq
    case OpNotEq => NotEq
    case OpLt => Lt
    case OpLtEq => LtEq
    case OpGt => Gt
    case OpGtEq => GtEq
    case OpAdd => Plus
    case OpSub => Minus
    case OpConcat => Concat
    case OpMul => Star
    case OpDiv => Slash
    case OpMod => Percent
  }

  function TypeToken(ty: SqlType): (t: Token)
    ensures TypeOf(t) == Some(ty)
  {
    match ty
    case TInteger => KwInteger
    case TReal => KwReal
    case TText => KwText
    case TBlob => KwBlob
    case TBoolean => KwBoolean
    case TNull => KwNull
  }

  /** Function names come out of the parser in upper case, and a list is never empty. */
  predicate Printable(up: string -> string, e: Expr) {
    match e
    case LitInt(_) => true
    case LitFloat(_) => true
    case LitStr(_) => true
    case LitBool(_) => true
    case LitNull => true
    case Column(_, _) => true
    case Function(name, args, _) => up(name) == name && forall i :: 0 <= i < |args| ==> Printable(up, args[i])
    case Binary(l, _, r) => Printable(up, l) && Printable(up, r)
    case Unary(_, p) => Printable(up, p)
    case IsNull(p, _) => Printable(up, p)
    case Between(p, l, h, _) => Printable(up, p) && Printable(up, l) && Printable(up, h)
    case InList(p, es, _) => Printable(up, p) && es != [] && forall i :: 0 <= i < |es| ==> Printable(up, es[i])
    case Like(p, q, _) => Printable(up, p) && Printable(up, q)
    case Glob(p, q, _) => Printable(up, p) && Printable(up, q)
    case Cast(p, _) => Printable(up, p)
  }

  /** `full` puts parentheses around every operand. */
  function Print(e: Expr, level: Level, full: bool): Syn
    decreases e, 1
  {
    var s := Bare(e, full);
    if full || LevelOf(s) < level then Paren(s) else s
  }

  function Bare(e: Expr, full: bool): Syn
    decreases e, 0
  {
    match e
    case LitInt(i) => Leaf(TokInt(i))
    case LitFloat(x) => Leaf(TokFloat(x))
    case LitStr(s) => Leaf(TokStr(s))
    case LitBool(b) => Leaf(if b then KwTrue else KwFalse)
    case LitNull => Leaf(KwNull)
    case Column(table, name) => if table.Some? then Dotted(table.value, Ident(name)) else Leaf(Ident(name))
    case Function(name, args, d) => Call(name, d, PrintAll(args, full), false)
    case Binary(l, op, r) =>
      var level := InfixOp(TokenOf(op)).value.0;
      Infix(Print(l, if level == 3 then 4 else level, full), TokenOf(op), Print(r, level + 1, full))
    case Unary(op, p) => if op.OpNeg? then Minus1(Print(p, 7, full)) else Not1(Print(p, 3, full))
    case IsNull(p, n) => Null1(Print(p, 4, full), n)
    case Between(p, l, h, n) => Range(Print(p, 4, full), Print(l, 4, full), Print(h, 4, full), n)
    case InList(p, es, n) => Member(Print(p, 4, full), PrintAll(es, full), false, n)
    case Like(p, q, n) => Match(Print(p, 4, full), false, Print(q, 4, full), n)
    case Glob(p, q, n) => Match(Print(p, 4, full), true, Print(q, 4, full), n)
    case Cast(p, ty) => CastAs(Print(p, 0, full), TypeToken(ty))
  }

  function PrintAll(es: seq<Expr>, full: bool): (r: seq<Syn>)
    ensures |r| == |es|
    decreases es, 2
  {
    if es == [] then [] else [Print(es[0], 0, full)] + PrintAll(es[1..], full)
  }

  lemma {:induction false} PrintMeans(up: string -> string, e: Expr, level: Level, full: bool)
    requires Printable(up, e)
    ensures Formed(Print(e, level, full)) && LevelOf(Print(e, level, full)) >= level
    ensures Meaning(up, Print(e, level, full)) == e
    decreases e, 1
  {
    hide Bare, Printable;
    BareMeans(up, e, full);
  }

  lemma {:induction false} BareMeans(up: string -> string, e: Expr, full: bool)
    requires Printable(up, e)
    ensures Formed(Bare(e, full)) && Meaning(up, Bare(e, full)) == e
    decreases e, 0, 1
  {
    hide Bare, Formed, Meaning, Printable;
    if e.Binary? {
      BinaryMeans(up, e, full);
    } else if e.Between? {
      BetweenMeans(up, e, full);
    } else if e.Like? {
      LikeMeans(up, e, full);
    } else if e.Glob? {
      GlobMeans(up, e, full);
    } else if e.Function? || e.InList? {
      ListMeans(up, e, full);
    } else if e.Unary? || e.IsNull? || e.Cast? {
      OneMeans(up, e, full);
    } else {
      AtomMeans(up, e, full);
    }
  }

  lemma {:induction false} AtomMeans(up: string -> string, e: Expr, full: bool)
    requires e.LitInt? || e.LitFloat? || e.LitStr? || e.LitBool? || e.LitNull? || e.Column?
    ensures Formed(Bare(e, full)) && Meaning(up, Bare(e, full)) == e
  {
  }

  lemma {:induction false} OneMeans(up: string -> string, e: Expr, full: bool)
    requires (e.Unary? || e.IsNull? || e.Cast?) && Printable(up, e)
    ensures Formed(Bare(e, full)) && Meaning(up, Bare(e, full)) == e
    decreases e, 0, 0
  {
    hide Print, PrintAll;
    PrintMeans(up, e.expr, if e.IsNull? then 4 else if e.Cast? then 0 else if e.uop.OpNeg? then 7 else 3, full);
  }

  lemma {:induction false} ListMeans(up: string -> string, e: Expr, full: bool)
    requires (e.Function? || e.InList?) && Printable(up, e)
    ensures Formed(Bare(e, full)) && Meaning(up, Bare(e, full)) == e
    decreases e, 0, 0
  {
    hide Print, PrintAll;
    if e.InList? {
      PrintMeans(up, e.expr, 4, full);
      AllMean(up, e.list, full);
    } else {
      AllMean(up, e.args, full);
    }
  }

  lemma {:induction false} LikeMeans(up: string -> string, e: Expr, full: bool)
    requires e.Like? && Printable(up, e)
    ensures Formed(Bare(e, full)) && Meaning(up, Bare(e, full)) == e
    decreases e, 0, 0
  {
    hide Print, PrintAll;
    PrintMeans(up, e.expr, 4, full);
    PrintMeans(up, e.pattern, 4, full);
  }

  lemma {:induction false} GlobMeans(up: string -> string, e: Expr, full: bool)
    requires e.Glob? && Printable(up, e)
    ensures Formed(Bare(e, full)) && Meaning(up, Bare(e, full)) == e
    decreases e, 0, 0
  {
    hide Print, PrintAll;
    PrintMeans(up, e.expr, 4, full);
    PrintMeans(up, e.pattern, 4, full);
  }

  lemma {:induction false} BetweenMeans(up: string -> string, e: Expr, full: bool)
    requires e.Between? && Printable(up, e)
    ensures Formed(Bare(e, full)) && Meaning(up, Bare(e, full)) == e
    decreases e, 0, 0
  {
    hide Print, PrintAll;
    PrintMeans(up, e.expr, 4, full);
    PrintMeans(up, e.low, 4, full);
    PrintMeans(up, e.high, 4, full);
  }

  lemma {:induction false} BinaryMeans(up: string -> string, e: Expr, full: bool)
    requires e.Binary? && Printable(up, e)
    ensures Formed(Bare(e, full)) && Meaning(up, Bare(e, full)) == e
    decreases e, 0, 0
  {
    hide Print, PrintAll;
    var level := InfixOp(TokenOf(e.op)).value.0;
    PrintMeans(up, e.left, if level == 3 then 4 else level, full);
    PrintMeans(up, e.right, level + 1, full);
  }

  lemma {:induction false} AllMean(up: string -> string, es: seq<Expr>, full: bool)
    requires forall i :: 0 <= i < |es| ==> Printable(up, es[i])
    ensures forall i :: 0 <= i < |es| ==> Formed(PrintAll(es, full)[i])
    ensures Meanings(up, PrintAll(es, full)) == es
    decreases es, 2
  {
    hide Print, Printable, Formed, Meaning;
    if es != [] {
      PrintMeans(up, es[0], 0, full);
      AllMean(up, es[1..], full);
      assert PrintAll(es, full)[1..] == PrintAll(es[1..], full);
      assert es == [es[0]] + es[1..];
    }
  }

  /** Parsing what was printed gives the expression back and stops at the terminator. */
  lemma {:induction false} RoundTrip(up: string -> string, e: Expr, full: bool, end: Token, rest: seq<Token>)
    requires Printable(up, e) && Reach(end) < 0
    ensures var w := Spell(Print(e, 0, full)); Read(up, w + [end] + rest, 0, 0) == Done(e, |w|)
  {
    hide Read, Spell, Meaning, Formed, LevelOf, Print;
    var s := Print(e, 0, full);
    PrintMeans(up, e, 0, full);
    var ts := Spell(s) + [end] + rest;
    assert Here(ts, 0, Spell(s)) by { assert ts[..|Spell(s)|] == Spell(s); }
    assert ts[|Spell(s)|] == end;
    ReadBack(up, ts, 0, s, 0);
  }

  // ------------------------------------------------------------------
  // What the grammar shuts out.
  // ------------------------------------------------------------------

  /** NOT takes a comparison, so a second NOT is an error. */
  lemma {:induction false} NoDoubleNot(up: string -> string, ts: seq<Token>, i: nat)
    requires i < |ts| && Peek(ts, i).KwNot? && Peek(ts, i + 1).KwNot?
    ensures Read(up, ts, i, 0).Fail?
  {
    hide Primary, Compare, Chain;
    assert Read(up, ts, i + 1, 3) == Fail by { NoSign(up, ts, i + 1); }
    assert Read(up, ts, i, 2) == Fail;
    assert Read(up, ts, i, 1) == Fail;
  }

  /** Unary minus takes a primary, so a second minus is an error, at every level that reaches it. */
  lemma {:induction false} NoDoubleMinus(up: string -> string, ts: seq<Token>, i: nat, level: Level)
    requires i < |ts| && Peek(ts, i).Minus? && Peek(ts, i + 1).Minus?
    ensures Read(up, ts, i, level) == Fail
    decreases 7 - level
  {
    hide Compare, Chain;
    if level < 6 {
      NoDoubleMinus(up, ts, i, level + 1);
    } else {
      assert Read(up, ts, i, 7) == Read(up, ts, i + 1, 7) == Fail;
    }
  }

  lemma {:induction false} NoSign(up: string -> string, ts: seq<Token>, i: nat)
    requires i <= |ts| && LitOf(Peek(ts, i)).None? && !Peek(ts, i).Minus? && !Peek(ts, i).LParen?
    requires !Peek(ts, i).KwExists? && !Peek(ts, i).KwCast?
    ensures Read(up, ts, i, 3) == Fail
  {
    hide Compare, Chain;
    assert Read(up, ts, i, 7) == Fail;
    assert Read(up, ts, i, 6) == Fail;
    assert Read(up, ts, i, 5) == Fail;
    assert Read(up, ts, i, 4) == Fail;
  }
}
