/** Tokens, expressions and the expression grammar (src/parser/lexer.rs, src/parser/ast.rs). */
module Grammar {
  import opened Keys

  datatype Token =
    | TokInt(i: I64) | TokFloat(x: real) | TokStr(text: string) | Ident(name: string)
    | KwNull | KwTrue | KwFalse
    | KwNot | KwAnd | KwOr | KwIs | KwIn | KwLike | KwGlob | KwBetween
    | KwSelect | KwWith | KwExists | KwCast | KwAs | KwDistinct
    | KwInteger | KwText | KwReal | KwBlob | KwBoolean
    | Eq | NotEq | Lt | LtEq | Gt | GtEq
    | Plus | Minus | Concat | Star | Slash | Percent
    | LParen | RParen | Comma | Dot | Eof
    | Other(code: nat) // every token that has no part in expressions

  datatype BinOp =
    | OpOr | OpAnd | OpEq | OpNotEq | OpLt | OpLtEq | OpGt | OpGtEq
    | OpAdd | OpSub | OpConcat | OpMul | OpDiv | OpMod

  datatype UnaryOp = OpNeg | OpNot

  datatype SqlType = TInteger | TReal | TText | TBlob | TBoolean | TNull

  /** Expressions without subqueries. */
  datatype Expr =
    | LitInt(i: I64) | LitFloat(x: real) | LitStr(text: string) | LitBool(b: bool) | LitNull
    | Column(table: Option<string>, name: string)
    | Function(name: string, args: seq<Expr>, distinct: bool)
    | Binary(left: Expr, op: BinOp, right: Expr)
    | Unary(uop: UnaryOp, expr: Expr)
    | IsNull(expr: Expr, negated: bool)
    | Between(expr: Expr, low: Expr, high: Expr, negated: bool)
    | InList(expr: Expr, list: seq<Expr>, negated: bool)
    | Like(expr: Expr, pattern: Expr, negated: bool)
    | Glob(expr: Expr, pattern: Expr, negated: bool)
    | Cast(expr: Expr, to: SqlType)

  /** Concrete syntax: an expression with its parentheses and trailing commas still there. */
  datatype Syn =
    | Leaf(tok: Token)
    | Dotted(table: string, tok: Token)
    | CallStar(name: string, distinct: bool)
    | Call(name: string, distinct: bool, items: seq<Syn>, comma: bool)
    | CastAs(inner: Syn, tok: Token)
    | Paren(inner: Syn)
    | Minus1(inner: Syn)
    | Not1(inner: Syn)
    | Infix(left: Syn, tok: Token, right: Syn)
    | Null1(inner: Syn, negated: bool)
    | Range(inner: Syn, low: Syn, high: Syn, negated: bool)
    | Member(inner: Syn, items: seq<Syn>, comma: bool, negated: bool)
    | Match(inner: Syn, glob: bool, pattern: Syn, negated: bool)

  // ------------------------------------------------------------------
  // Precedence: OR 0, AND 1, NOT 2, comparison 3, addition 4, multiplication 5, minus 6, primary 7.
  // ------------------------------------------------------------------

  type Level = x: int | 0 <= x <= 7

  function InfixOp(t: Token): Option<(Level, BinOp)> {
    match t
    case KwOr => Some((0, OpOr))
    case KwAnd => Some((1, OpAnd))
    case Eq => Some((3, OpEq))
    case NotEq => Some((3, OpNotEq))
    case Lt => Some((3, OpLt))
    case LtEq => Some((3, OpLtEq))
    case Gt => Some((3, OpGt))
    case GtEq => Some((3, OpGtEq))
    case Plus => Some((4, OpAdd))
    case Minus => Some((4, OpSub))
    case Concat => Some((4, OpConcat))
    case Star => Some((5, OpMul))
    case Slash => Some((5, OpDiv))
    case Percent => Some((5, OpMod))
    case _ => None
  }

  /** The operator, if the token is one of the level. */
  function OpAt(t: Token, level: Level): Option<BinOp> {
    if InfixOp(t).Some? && InfixOp(t).value.0 == level then Some(InfixOp(t).value.1) else None
  }

  function LitOf(t: Token): Option<Expr> {
    match t
    case TokInt(i) => Some(LitInt(i))
    case TokFloat(x) => Some(LitFloat(x))
    case TokStr(s) => Some(LitStr(s))
    case KwNull => Some(LitNull)
    case KwTrue => Some(LitBool(true))
    case KwFalse => Some(LitBool(false))
    case Ident(s) => Some(Column(None, s))
    case _ => None
  }

  /** Type keywords may stand for names. */
  function IdentOf(t: Token): Option<string> {
    match t
    case Ident(s) => Some(s)
    case KwText => Some("text")
    case KwInteger => Some("integer")
    case KwReal => Some("real")
    case KwBlob => Some("blob")
    case KwBoolean => Some("boolean")
    case _ => None
  }

  function TypeOf(t: Token): Option<SqlType> {
    match t
    case KwInteger => Some(TInteger)
    case KwReal => Some(TReal)
    case KwText => Some(TText)
    case KwBlob => Some(TBlob)
    case KwBoolean => Some(TBoolean)
    case KwNull => Some(TNull)
    case _ => None
  }

  function LevelOf(s: Syn): Level {
    match s
    case Infix(_, t, _) => if InfixOp(t).Some? then InfixOp(t).value.0 else 7
    case Not1(_) => 2
    case Null1(_, _) => 3
    case Range(_, _, _, _) => 3
    case Member(_, _, _, _) => 3
    case Match(_, _, _, _) => 3
    case Minus1(_) => 6
    case _ => 7
  }

  /** The grammar.  Chains of one level lean left, comparisons do not chain, and neither do NOT
      and unary minus. */
  predicate Formed(s: Syn) {
    match s
    case Leaf(t) => LitOf(t).Some?
    case Dotted(_, t) => IdentOf(t).Some?
    case CallStar(_, _) => true
    case Call(_, _, items, comma) => (items == [] ==> !comma) && forall i :: 0 <= i < |items| ==> Formed(items[i])
    case CastAs(p, t) => Formed(p) && TypeOf(t).Some?
    case Paren(p) => Formed(p)
    case Minus1(p) => Formed(p) && LevelOf(p) >= 7
    case Not1(p) => Formed(p) && LevelOf(p) >= 3
    case Infix(l, t, r) =>
      && Formed(l) && Formed(r) && InfixOp(t).Some?
      && LevelOf(l) >= (if InfixOp(t).value.0 == 3 then 4 else InfixOp(t).value.0) && LevelOf(r) > InfixOp(t).value.0
    case Null1(p, _) => Formed(p) && LevelOf(p) >= 4
    case Range(p, l, h, _) => Formed(p) && Formed(l) && Formed(h) && LevelOf(p) >= 4 && LevelOf(l) >= 4
        && LevelOf(h) >= 4
    case Member(p, items, _, _) => Formed(p) && LevelOf(p) >= 4 && items != [] && forall i ::
        0 <= i < |items| ==> Formed(items[i])
    case Match(p, _, q, _) => Formed(p) && Formed(q) && LevelOf(p) >= 4 && LevelOf(q) >= 4
  }

  function When(b: bool, t: Token): seq<Token> { if b then [t] else [] }

  /** The tokens of concrete syntax. */
  function Spell(s: Syn): seq<Token> {
    match s
    case Leaf(t) => [t]
    case Dotted(table, t) => [Ident(table), Dot, t]
    case CallStar(name, d) => [Ident(name), LParen] + When(d, KwDistinct) + [Star, RParen]
    case Call(name, d, items, comma) => [Ident(name), LParen] + When(d, KwDistinct) + SpellItems(items, comma)
        + [RParen]
    case CastAs(p, t) => [KwCast, LParen] + Spell(p) + [KwAs, t, RParen]
    case Paren(p) => [LParen] + Spell(p) + [RParen]
    case Minus1(p) => [Minus] + Spell(p)
    case Not1(p) => [KwNot] + Spell(p)
    case Infix(l, t, r) => Spell(l) + [t] + Spell(r)
    case Null1(p, n) => Spell(p) + [KwIs] + When(n, KwNot) + [KwNull]
    case Range(p, l, h, n) => Spell(p) + When(n, KwNot) + [KwBetween] + Spell(l) + [KwAnd] + Spell(h)
    case Member(p, items, comma, n) => Spell(p) + When(n, KwNot) + [KwIn, LParen] + SpellItems(items, comma) + [RParen]
    case Match(p, g, q, n) => Spell(p) + When(n, KwNot) + [if g then KwGlob else KwLike] + Spell(q)
  }

  function SpellItems(items: seq<Syn>, comma: bool): seq<Token> {
    if items == [] then [] else Spell(items[0]) + SpellMore(items[1..], comma)
  }

  function SpellMore(items: seq<Syn>, comma: bool): seq<Token> {
    if items == [] then When(comma, Comma) else [Comma] + Spell(items[0]) + SpellMore(items[1..], comma)
  }

  /** The expression that concrete syntax stands for; function names become upper case. */
  function Meaning(upper: string -> string, s: Syn): Expr {
    match s
    case Leaf(t) => if LitOf(t).Some? then LitOf(t).value else LitNull
    case Dotted(table, t) => Column(Some(table), if IdentOf(t).Some? then IdentOf(t).value else "")
    case CallStar(name, d) => Function(upper(name), [Column(None, "*")], d)
    case Call(name, d, items, _) => Function(upper(name), Meanings(upper, items), d)
    case CastAs(p, t) => Cast(Meaning(upper, p), if TypeOf(t).Some? then TypeOf(t).value else TNull)
    case Paren(p) => Meaning(upper, p)
    case Minus1(p) => Unary(OpNeg, Meaning(upper, p))
    case Not1(p) => Unary(OpNot, Meaning(upper, p))
    case Infix(l, t, r) => Binary(Meaning(upper, l), if InfixOp(t).Some? then InfixOp(t).value.1
        else OpOr, Meaning(upper, r))
    case Null1(p, n) => IsNull(Meaning(upper, p), n)
    case Range(p, l, h, n) => Between(Meaning(upper, p), Meaning(upper, l), Meaning(upper, h), n)
    case Member(p, items, _, n) => InList(Meaning(upper, p), Meanings(upper, items), n)
    case Match(p, g, q, n) => if g then Glob(Meaning(upper, p), Meaning(upper, q), n)
        else Like(Meaning(upper, p), Meaning(upper, q), n)
  }

  function Meanings(upper: string -> string, items: seq<Syn>): (es: seq<Expr>)
    ensures |es| == |items|
  {
    if items == [] then [] else [Meaning(upper, items[0])] + Meanings(upper, items[1..])
  }

  lemma {:induction false} MeaningsAt(upper: string -> string, items: seq<Syn>, i: nat)
    requires i < |items|
    ensures Meanings(upper, items)[i] == Meaning(upper, items[i])
  {
    if i > 0 {
      MeaningsAt(upper, items[1..], i - 1);
    }
  }

  // ------------------------------------------------------------------
  // First tokens.
  // ------------------------------------------------------------------

  /** The tokens an expression can begin with. */
  predicate Starts(t: Token) {
    LitOf(t).Some? || t.KwCast? || t.LParen? || t.Minus? || t.KwNot?
  }

  lemma {:induction false} FirstToken(s: Syn)
    requires Formed(s)
    ensures Spell(s) != [] && Starts(Spell(s)[0])
    ensures LevelOf(s) >= 3 ==> !Spell(s)[0].KwNot?
    ensures LevelOf(s) >= 7 ==> !Spell(s)[0].Minus?
  {
    match s {
      case Infix(l, t, r) => FirstToken(l);
      case Null1(p, _) => FirstToken(p);
      case Range(p, _, _, _) => FirstToken(p);
      case Member(p, _, _, _) => FirstToken(p);
      case Match(p, _, _, _) => FirstToken(p);
      case _ =>
    }
  }

  lemma {:induction false} SpellRange(p: Syn, l: Syn, h: Syn, n: bool)
    ensures Spell(Range(p, l, h, n)) == Spell(p) + (When(n, KwNot) + ([KwBetween] + (Spell(l) + ([KwAnd] + Spell(h)))))
  {
  }

  lemma {:induction false} SpellMember(p: Syn, items: seq<Syn>, comma: bool, n: bool)
    ensures Spell(Member(p, items, comma, n)) ==
      Spell(p) + (When(n, KwNot) + ([KwIn] + ([LParen] + (SpellItems(items, comma) + [RParen]))))
  {
    hide SpellItems;
  }

  lemma {:induction false} SpellCast(p: Syn, t: Token)
    ensures Spell(CastAs(p, t)) == [KwCast] + ([LParen] + (Spell(p) + ([KwAs] + ([t] + [RParen]))))
  {
  }

  lemma {:induction false} SpellParen(p: Syn)
    ensures Spell(Paren(p)) == [LParen] + (Spell(p) + [RParen])
  {
  }
}
