/** The expression parser over its position field (src/parser/parser.rs). */
module Parsers {
  import opened Keys
  import opened Grammar
  import opened Descent

  /** `Nested` where the source goes on to parse a SELECT. */
  datatype Parsed<+T> = Ok(value: T) | Err | Nested

  /** The call returned what the specification function says, and stands where it says. */
  ghost predicate Follows<T>(o: Outcome<T>, r: Parsed<T>, pos: nat) {
    match o
    case Done(e, j) => r == Ok(e) && pos == j
    case Fail => r == Err
    case Subquery => r == Nested
  }

  lemma {:induction false} OperatorInside(ts: seq<Token>, i: nat)
    requires OpAt(Peek(ts, i), 3).Some?
    ensures i < |ts|
  {
  }

  class Parser {
    const tokens: seq<Token>
    const upper: string -> string
    var pos: nat

    constructor (tokens: seq<Token>, upper: string -> string)
      ensures this.tokens == tokens && this.upper == upper && pos == 0
    {
      this.tokens := tokens;
      this.upper := upper;
      pos := 0;
    }

    predicate Valid()
      reads this`pos
    {
      pos <= |tokens|
    }

    method Advance() returns (t: Token)
      requires Valid()
      modifies this`pos
      ensures Valid() && t == Peek(tokens, old(pos))
      ensures pos == old(pos) + (if old(pos) < |tokens| then 1 else 0)
    {
      t := Peek(tokens, pos);
      if pos < |tokens| {
        pos := pos + 1;
      }
    }

    predicate Check(t: Token)
      reads this`pos
    {
      Peek(tokens, pos) == t
    }

    method Eat(t: Token) returns (ok: bool)
      requires Valid() && t != Eof
      modifies this`pos
      ensures Valid() && ok == (Peek(tokens, old(pos)) == t) && pos == old(pos) + (if ok then 1 else 0)
    {
      ok := Maybe(t);
    }

    method Maybe(t: Token) returns (found: bool)
      requires Valid() && t != Eof
      modifies this`pos
      ensures Valid() && found == (Peek(tokens, old(pos)) == t) && pos == old(pos) + (if found then 1 else 0)
    {
      found := Check(t);
      if found {
        var _ := Advance();
      }
    }

    method ParseExpr() returns (r: Parsed<Expr>)
      requires Valid()
      modifies this`pos
      ensures Valid() && Follows(Read(upper, tokens, old(pos), 0), r, pos)
      decreases |tokens| - pos, 9, 0
    {
      r := ParseOr();
    }

    method ParseOr() returns (r: Parsed<Expr>)
      requires Valid()
      modifies this`pos
      ensures Valid() && Follows(Read(upper, tokens, old(pos), 0), r, pos)
      decreases |tokens| - pos, 8, 0
    {
      hide Primary, Compare;
      r := ParseAnd();
      while r.Ok? && Check(KwOr)
        invariant Valid() && (r.Ok? ==> pos > old(pos))
        invariant r.Ok? ==> Read(upper, tokens, old(pos), 0) == Chain(upper, tokens, pos, 0, r.value)
        invariant !r.Ok? ==> Follows(Read(upper, tokens, old(pos), 0), r, pos)
        decreases r.Ok?, |tokens| - pos
      {
        var _ := Advance();
        var right := ParseAnd();
        r := if right.Ok? then Ok(Binary(r.value, OpOr, right.value)) else right;
      }
    }

    method ParseAnd() returns (r: Parsed<Expr>)
      requires Valid()
      modifies this`pos
      ensures Valid() && Follows(Read(upper, tokens, old(pos), 1), r, pos)
      decreases |tokens| - pos, 7, 0
    {
      hide Primary, Compare;
      r := ParseNot();
      while r.Ok? && Check(KwAnd)
        invariant Valid() && (r.Ok? ==> pos > old(pos))
        invariant r.Ok? ==> Read(upper, tokens, old(pos), 1) == Chain(upper, tokens, pos, 1, r.value)
        invariant !r.Ok? ==> Follows(Read(upper, tokens, old(pos), 1), r, pos)
        decreases r.Ok?, |tokens| - pos
      {
        var _ := Advance();
        var right := ParseNot();
        r := if right.Ok? then Ok(Binary(r.value, OpAnd, right.value)) else right;
      }
    }

    method ParseNot() returns (r: Parsed<Expr>)
      requires Valid()
      modifies this`pos
      ensures Valid() && Follows(Read(upper, tokens, old(pos), 2), r, pos)
      decreases |tokens| - pos, 6, 0
    {
      hide Primary, Compare, Chain;
      if Check(KwNot) {
        var _ := Advance();
        var e := ParseComparison();
        return if e.Ok? then Ok(Unary(OpNot, e.value)) else e;
      }
      r := ParseComparison();
    }

    method ParseComparison() returns (r: Parsed<Expr>)
      requires Valid()
      modifies this`pos
      ensures Valid() && Follows(Read(upper, tokens, old(pos), 3), r, pos)
      decreases |tokens| - pos, 5, 0
    {
      hide Primary, Compare, Chain;
      var left := ParseAddition();
      if !left.Ok? {
        return left;
      }
      r := ParseCompared(left.value);
    }

    /** What follows the first operand. */
    method ParseCompared(left: Expr) returns (r: Parsed<Expr>)
      requires Valid()
      modifies this`pos
      ensures Valid() && Follows(Compare(upper, tokens, old(pos), left), r, pos)
      decreases |tokens| - pos, 12, 0
    {
      hide Read, RangeOf, MemberOf, OpAt, InfixOp;
      if !Check(KwIs) {
        r := ParseBetween(left);
        return;
      }
      var _ := Advance();
      var negated := Maybe(KwNot);
      var ok := Eat(KwNull);
      return if ok then Ok(IsNull(left, negated)) else Err;
    }

    /** BETWEEN, IN, LIKE, GLOB or a comparison operator. */
    method ParseBetween(left: Expr) returns (r: Parsed<Expr>)
      requires Valid() && !Check(KwIs)
      modifies this`pos
      ensures Valid() && Follows(Compare(upper, tokens, old(pos), left), r, pos)
      decreases |tokens| - pos, 11, 0
    {
      hide Read, RangeOf, MemberOf, OpAt, InfixOp;
      var negatedBetween := Check(KwNot) && Peek(tokens, pos + 1) == KwBetween;
      if negatedBetween {
        var _ := Advance();
      }
      var between := Maybe(KwBetween);
      if between {
        r := ParseRange(left, negatedBetween);
        return;
      }
      var negatedIn := !negatedBetween && Check(KwNot) && Peek(tokens, pos + 1) == KwIn;
      if negatedIn {
        var _ := Advance();
      }
      var member := Maybe(KwIn);
      if member {
        r := ParseMember(left, negatedIn);
        return;
      }
      r := ParsePattern(left);
    }

    /** LIKE, GLOB or a comparison operator, where IS, BETWEEN and IN are ruled out. */
    method ParsePattern(left: Expr) returns (r: Parsed<Expr>)
      requires Valid() && !Check(KwIs) && !Check(KwBetween) && !Check(KwIn)
      requires Check(KwNot) ==> Peek(tokens, pos + 1) != KwBetween && Peek(tokens, pos + 1) != KwIn
      modifies this`pos
      ensures Valid() && Follows(Compare(upper, tokens, old(pos), left), r, pos)
      decreases |tokens| - pos, 10, 0
    {
      hide Read, Items, RangeOf, MemberOf, OpAt, InfixOp;
      var negatedLike := Check(KwNot) && Peek(tokens, pos + 1) == KwLike;
      if negatedLike {
        var _ := Advance();
      }
      var like := Maybe(KwLike);
      if like {
        var pattern := ParseAddition();
        return if pattern.Ok? then Ok(Like(left, pattern.value, negatedLike)) else pattern;
      }
      r := ParseGlob(left);
    }

    /** GLOB or a comparison operator, where the rest is ruled out. */
    method ParseGlob(left: Expr) returns (r: Parsed<Expr>)
      requires Valid() && !Check(KwIs) && !Check(KwBetween) && !Check(KwIn) && !Check(KwLike)
      requires Check(KwNot) ==> Peek(tokens, pos + 1) !in {KwBetween, KwIn, KwLike}
      modifies this`pos
      ensures Valid() && Follows(Compare(upper, tokens, old(pos), left), r, pos)
      decreases |tokens| - pos, 9, 0
    {
      hide Read, Items, RangeOf, MemberOf, OpAt, InfixOp;
      var negatedGlob := Check(KwNot) && Peek(tokens, pos + 1) == KwGlob;
      if negatedGlob {
        var _ := Advance();
      }
      var glob := Maybe(KwGlob);
      if glob {
        var pattern := ParseAddition();
        return if pattern.Ok? then Ok(Glob(left, pattern.value, negatedGlob)) else pattern;
      }
      r := ParseOperator(left);
    }

    /** A comparison operator, or nothing. */
    method ParseOperator(left: Expr) returns (r: Parsed<Expr>)
      requires Valid() && !Negates(tokens, pos)
      requires Peek(tokens, pos) !in {KwIs, KwBetween, KwIn, KwLike, KwGlob}
      modifies this`pos
      ensures Valid() && Follows(Compare(upper, tokens, old(pos), left), r, pos)
      decreases |tokens| - pos, 8, 0
    {
      hide Read, Items, RangeOf, MemberOf, OpAt, InfixOp;
      var op := OpAt(Peek(tokens, pos), 3);
      if op.None? {
        return Ok(left);
      }
      OperatorInside(tokens, pos);
      var _ := Advance();
      var right := ParseAddition();
      return if right.Ok? then Ok(Binary(left, op.value, right.value)) else right;
    }

    /** After BETWEEN. */
    method ParseRange(left: Expr, negated: bool) returns (r: Parsed<Expr>)
      requires Valid()
      modifies this`pos
      ensures Valid() && Follows(RangeOf(upper, tokens, old(pos), left, negated), r, pos)
      decreases |tokens| - pos, 10, 0
    {
      hide Read;
      var low := ParseAddition();
      if !low.Ok? {
        return low;
      }
      var ok := Eat(KwAnd);
      if !ok {
        return Err;
      }
      var high := ParseAddition();
      return if high.Ok? then Ok(Between(left, low.value, high.value, negated)) else high;
    }

    /** After IN. */
    method ParseMember(left: Expr, negated: bool) returns (r: Parsed<Expr>)
      requires Valid()
      modifies this`pos
      ensures Valid() && Follows(MemberOf(upper, tokens, old(pos), left, negated), r, pos)
      decreases |tokens| - pos, 10, 1
    {
      hide Read, Items;
      var ok := Eat(LParen);
      if !ok {
        return Err;
      }
      if Check(KwSelect) || Check(KwWith) {
        return Nested;
      }
      var list := ParseExprList();
      if !list.Ok? {
        return if list.Err? then Err else Nested;
      }
      ok := Eat(RParen);
      return if ok then Ok(InList(left, list.value, negated)) else Err;
    }

    method ParseAddition() returns (r: Parsed<Expr>)
      requires Valid()
      modifies this`pos
      ensures Valid() && Follows(Read(upper, tokens, old(pos), 4), r, pos)
      decreases |tokens| - pos, 4, 0
    {
      hide Primary, Compare;
      r := ParseMultiplication();
      while r.Ok? && OpAt(Peek(tokens, pos), 4).Some?
        invariant Valid() && (r.Ok? ==> pos > old(pos))
        invariant r.Ok? ==> Read(upper, tokens, old(pos), 4) == Chain(upper, tokens, pos, 4, r.value)
        invariant !r.Ok? ==> Follows(Read(upper, tokens, old(pos), 4), r, pos)
        decreases r.Ok?, |tokens| - pos
      {
        var op := OpAt(Peek(tokens, pos), 4).value;
        var _ := Advance();
        var right := ParseMultiplication();
        r := if right.Ok? then Ok(Binary(r.value, op, right.value)) else right;
      }
    }

    method ParseMultiplication() returns (r: Parsed<Expr>)
      requires Valid()
      modifies this`pos
      ensures Valid() && Follows(Read(upper, tokens, old(pos), 5), r, pos)
      decreases |tokens| - pos, 3, 0
    {
      hide Primary, Compare;
      r := ParseUnary();
      while r.Ok? && OpAt(Peek(tokens, pos), 5).Some?
        invariant Valid() && (r.Ok? ==> pos > old(pos))
        invariant r.Ok? ==> Read(upper, tokens, old(pos), 5) == Chain(upper, tokens, pos, 5, r.value)
        invariant !r.Ok? ==> Follows(Read(upper, tokens, old(pos), 5), r, pos)
        decreases r.Ok?, |tokens| - pos
      {
        var op := OpAt(Peek(tokens, pos), 5).value;
        var _ := Advance();
        var right := ParseUnary();
        r := if right.Ok? then Ok(Binary(r.value, op, right.value)) else right;
      }
    }

    method ParseUnary() returns (r: Parsed<Expr>)
      requires Valid()
      modifies this`pos
      ensures Valid() && Follows(Read(upper, tokens, old(pos), 6), r, pos)
      decreases |tokens| - pos, 2, 0
    {
      hide Primary, Compare, Chain;
      if Check(Minus) {
        var _ := Advance();
        var e := ParsePrimary();
        return if e.Ok? then Ok(Unary(OpNeg, e.value)) else e;
      }
      r := ParsePrimary();
    }

    method ParsePrimary() returns (r: Parsed<Expr>)
      requires Valid()
      modifies this`pos
      ensures Valid() && Follows(Read(upper, tokens, old(pos), 7), r, pos)
      decreases |tokens| - pos, 1, 0
    {
      hide Compare, Chain, Apply;
      var t := Advance();
      var lit := LitOf(t);
      if t.LParen? {
        r := ParseParen();
      } else if t.KwExists? {
        var ok := Eat(LParen);
        r := if ok then Nested else Err;
      } else if t.KwCast? {
        r := ParseCast();
      } else if t.Ident? && Check(LParen) {
        r := ParseFunctionCall(t.name);
      } else if t.Ident? && Check(Dot) {
        var _ := Advance();
        var col := Advance();
        r := if IdentOf(col).Some? then Ok(Column(Some(t.name), IdentOf(col).value)) else Err;
      } else {
        r := if lit.Some? then Ok(lit.value) else Err;
      }
    }

    /** After an opening parenthesis. */
    method ParseParen() returns (r: Parsed<Expr>)
      requires Valid()
      modifies this`pos
      ensures Valid() && Follows(ParenOf(upper, tokens, old(pos)), r, pos)
      decreases |tokens| - pos, 10, 0
    {
      hide Read;
      if Check(KwSelect) || Check(KwWith) {
        return Nested;
      }
      r := ParseExpr();
      if r.Ok? {
        var ok := Eat(RParen);
        r := if ok then r else Err;
      }
    }

    /** After CAST. */
    method ParseCast() returns (r: Parsed<Expr>)
      requires Valid()
      modifies this`pos
      ensures Valid() && Follows(CastOf(upper, tokens, old(pos)), r, pos)
      decreases |tokens| - pos, 10, 0
    {
      hide Read;
      var ok := Eat(LParen);
      if !ok {
        return Err;
      }
      var e := ParseExpr();
      if !e.Ok? {
        return e;
      }
      ok := Eat(KwAs);
      if !ok {
        return Err;
      }
      var ty := Advance();
      if TypeOf(ty).None? {
        return Err;
      }
      ok := Eat(RParen);
      return if ok then Ok(Cast(e.value, TypeOf(ty).value)) else Err;
    }

    method ParseFunctionCall(name: string) returns (r: Parsed<Expr>)
      requires Valid() && Check(LParen)
      modifies this`pos
      ensures Valid() && Follows(Apply(upper, tokens, old(pos), name), r, pos)
      decreases |tokens| - pos, 11, 0
    {
      hide Read, Args;
      var ok := Eat(LParen);
      var distinct := Maybe(KwDistinct);
      var args := ParseArgs();
      if !args.Ok? {
        return if args.Err? then Err else Nested;
      }
      ok := Eat(RParen);
      return if ok then Ok(Function(upper(name), args.value, distinct)) else Err;
    }

    /** `*`, nothing, or a list. */
    method ParseArgs() returns (r: Parsed<seq<Expr>>)
      requires Valid()
      modifies this`pos
      ensures Valid() && Follows(Args(upper, tokens, old(pos)), r, pos)
      decreases |tokens| - pos, 10, 0
    {
      hide Items;
      if Check(Star) {
        var _ := Advance();
        return Ok([Column(None, "*")]);
      } else if Check(RParen) {
        return Ok([]);
      }
      r := ParseExprList();
    }

    method ParseExprList() returns (r: Parsed<seq<Expr>>)
      requires Valid()
      modifies this`pos
      ensures Valid() && Follows(Items(upper, tokens, old(pos)), r, pos)
      decreases |tokens| - pos, 9, 1
    {
      hide Read;
      var e := ParseExpr();
      if !e.Ok? {
        return if e.Err? then Err else Nested;
      }
      var list := [e.value];
      while Check(Comma)
        invariant Valid() && pos > old(pos) && Items(upper, tokens, old(pos)) == More(upper, tokens, pos, list)
        decreases |tokens| - pos
      {
        var _ := Advance();
        if Check(RParen) {
          break;
        }
        e := ParseExpr();
        if !e.Ok? {
          return if e.Err? then Err else Nested;
        }
        list := list + [e.value];
      }
      return Ok(list);
    }
  }
}
