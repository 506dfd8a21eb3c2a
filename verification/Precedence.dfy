/** Operator precedence as the parser's header lists it (src/parser/parser.rs), said of flat sequences
    of operands and operators, without the tables that grammar and parser share. */
module Precedence {
  import opened Keys
  import opened Grammar
  import opened Descent
  import opened Complete

  /** An operand: one token, or a sequence in parentheses. */
  datatype Operand = One(tok: Token) | Group(items: seq<Item>, ops: seq<Token>)

  datatype Item = Item(not: bool, minus: bool, operand: Operand)

  // ------------------------------------------------------------------
  // Operators and operands, by name.
  // ------------------------------------------------------------------

  predicate IsOr(t: Token) { t == KwOr }

  predicate IsAnd(t: Token) { t == KwAnd }

  predicate IsComparison(t: Token) { t == Eq || t == NotEq || t == Lt || t == LtEq || t == Gt || t == GtEq }

  predicate IsSum(t: Token) { t == Plus || t == Minus || t == Concat }

  predicate IsProduct(t: Token) { t == Star || t == Slash || t == Percent }

  predicate IsOperator(t: Token) { IsOr(t) || IsAnd(t) || IsComparison(t) || IsSum(t) || IsProduct(t) }

  /** `s` binds looser than `t`. */
  predicate Looser(s: Token, t: Token) {
    || (IsOr(s) && !IsOr(t))
    || (IsAnd(s) && (IsComparison(t) || IsSum(t) || IsProduct(t)))
    || (IsComparison(s) && (IsSum(t) || IsProduct(t)))
    || (IsSum(s) && IsProduct(t))
  }

  predicate IsOperand(t: Token) {
    t.TokInt? || t.TokFloat? || t.TokStr? || t.Ident? || t == KwNull || t == KwTrue || t == KwFalse
  }

  /** The tokens that end an expression. */
  predicate Closes(t: Token) { t == Eof || t == RParen || t == Comma || t == KwAs || t.Other? }

  function OperatorOf(t: Token): BinOp {
    match t
    case KwOr => OpOr
    case KwAnd => OpAnd
    case Eq => OpEq
    case NotEq => OpNotEq
    case Lt => OpLt
    case LtEq => OpLtEq
    case Gt => OpGt
    case GtEq => OpGtEq
    case Plus => OpAdd
    case Minus => OpSub
    case Concat => OpConcat
    case Star => OpMul
    case Slash => OpDiv
    case Percent => OpMod
    case _ => OpOr
  }

  function Denoted(t: Token): Expr {
    match t
    case TokInt(i) => LitInt(i)
    case TokFloat(x) => LitFloat(x)
    case TokStr(s) => LitStr(s)
    case Ident(name) => Column(None, name)
    case KwTrue => LitBool(true)
    case KwFalse => LitBool(false)
    case _ => LitNull
  }

  // ------------------------------------------------------------------
  // Sequences, what they are spelled, and what they mean.
  // ------------------------------------------------------------------

  type Class = x: int | 0 <= x <= 6

  /** From loose to tight: OR, AND, NOT, comparisons, sums, products, minus. */
  predicate InClass(t: Token, k: Class) {
    match k
    case 0 => IsOr(t)
    case 1 => IsAnd(t)
    case 3 => IsComparison(t)
    case 4 => IsSum(t)
    case 5 => IsProduct(t)
    case _ => false
  }

  /** The last operator of the class. */
  function LastOf(ops: seq<Token>, k: Class): (j: Option<nat>)
    ensures j.Some? ==> j.value < |ops| && InClass(ops[j.value], k)
    ensures forall i :: (if j.Some? then j.value + 1 else 0) <= i < |ops| ==> !InClass(ops[i], k)
  {
    if ops == [] then None
    else if InClass(ops[|ops| - 1], k) then Some(|ops| - 1)
    else LastOf(ops[..|ops| - 1], k)
  }

  /** NOT stands first or after OR or AND; between these there is at most one comparison. */
  ghost predicate Proper(items: seq<Item>, ops: seq<Token>)
    decreases items, 1
  {
    && |items| == |ops| + 1 && (forall i :: 0 <= i < |ops| ==> IsOperator(ops[i]))
    && (forall i :: 0 < i < |items| && items[i].not ==> IsOr(ops[i - 1]) || IsAnd(ops[i - 1]))
    && Apart(ops)
    && forall i :: 0 <= i < |items| ==> ProperItem(items[i])
  }

  ghost predicate ProperItem(item: Item)
    decreases item, 0
  {
    match item
    case Item(_, _, One(t)) => IsOperand(t)
    case Item(_, _, Group(items, ops)) => Proper(items, ops)
  }

  /** An operand with its minus, if it has one. */
  function ItemTokens(item: Item): seq<Token>
    decreases item, 0
  {
    match item
    case Item(_, minus, One(t)) => When(minus, Minus) + [t]
    case Item(_, minus, Group(items, ops)) => When(minus, Minus) + ([LParen] + (Tokens(items, ops) + [RParen]))
  }

  /** Without a NOT before the first operand. */
  function Unnegated(items: seq<Item>, ops: seq<Token>): seq<Token>
    decreases items, 1
  {
    if items == [] then []
    else
      var n := |items| - 1;
      var last := ItemTokens(items[n]);
      if n == 0 || n > |ops| then last
      else Unnegated(items[..n], ops[..n - 1]) + [ops[n - 1]] + (When(items[n].not, KwNot) + last)
  }

  function Tokens(items: seq<Item>, ops: seq<Token>): seq<Token>
    decreases items, 2
  {
    When(items != [] && items[0].not, KwNot) + Unnegated(items, ops)
  }

  function Negative(minus: bool, e: Expr): Expr { if minus then Unary(OpNeg, e) else e }

  function ItemMeaning(item: Item): Expr
    decreases item, 0
  {
    match item
    case Item(_, minus, One(t)) => Negative(minus, Denoted(t))
    case Item(_, minus, Group(items, ops)) => Negative(minus, Grouped(items, ops, 0))
  }

  /** The last operator of the loosest class there is comes to the top; NOT is looser than comparisons
      and minus is tighter than products. */
  function Grouped(items: seq<Item>, ops: seq<Token>, k: Class): Expr
    decreases items, 8 - k
  {
    if |items| != |ops| + 1 then LitNull
    else if k == 6 then
      ItemMeaning(items[0])
    else if k == 2 then
      var e := Grouped(items, ops, 3);
      if items[0].not then Unary(OpNot, e) else e
    else
      var j := LastOf(ops, k);
      if j.None? then Grouped(items, ops, k + 1)
      else
        Binary(Grouped(items[..j.value + 1], ops[..j.value], k), OperatorOf(ops[j.value]),
               Grouped(items[j.value + 1..], ops[j.value + 1..], k + 1))
  }

  // ------------------------------------------------------------------
  // The grammar derives that meaning.
  // ------------------------------------------------------------------

  function Signed(minus: bool, s: Syn): Syn { if minus then Minus1(s) else s }

  function ItemSyn(item: Item): Syn
    decreases item, 0
  {
    match item
    case Item(_, minus, One(t)) => Signed(minus, Leaf(t))
    case Item(_, minus, Group(items, ops)) => Signed(minus, Paren(SynOf(items, ops, 0)))
  }

  function SynOf(items: seq<Item>, ops: seq<Token>, k: Class): Syn
    decreases items, 8 - k
  {
    if |items| != |ops| + 1 then Leaf(KwNull)
    else if k == 6 then
      ItemSyn(items[0])
    else if k == 2 then
      var s := SynOf(items, ops, 3);
      if items[0].not then Not1(s) else s
    else
      var j := LastOf(ops, k);
      if j.None? then SynOf(items, ops, k + 1)
      else
        Infix(SynOf(items[..j.value + 1], ops[..j.value], k), ops[j.value],
              SynOf(items[j.value + 1..], ops[j.value + 1..], k + 1))
  }

  /** No operator looser than the class. */
  ghost predicate From(ops: seq<Token>, k: Class) {
    forall i, c: Class :: 0 <= i < |ops| && c < k ==> !InClass(ops[i], c)
  }

  lemma {:induction false} Slices<T>(s: seq<T>, j: nat, n: nat)
    requires j <= n < |s|
    ensures s[..n][..j] == s[..j] && s[..n][j..] == s[j..][..n - j] && s[j..][n - j] == s[n]
  {
  }

  lemma {:induction false} SplitTokens(items: seq<Item>, ops: seq<Token>, j: nat)
    requires |items| == |ops| + 1 && j < |ops|
    ensures Unnegated(items, ops) ==
      Unnegated(items[..j + 1], ops[..j]) + [ops[j]] + Tokens(items[j + 1..], ops[j + 1..])
    decreases |items|
  {
    hide ItemTokens, Unnegated, Tokens;
    var n := |items| - 1;
    var right, rops := items[j + 1..], ops[j + 1..];
    LastToken(items, ops);
    if j == n - 1 {
      assert items[..j + 1] == items[..n] && ops[..j] == ops[..n - 1];
      assert right == [items[n]] && rops == [];
      LastToken(right, rops);
      TokensAre(right, rops);
    } else {
      SplitTokens(items[..n], ops[..n - 1], j);
      Slices(items, j + 1, n);
      Slices(ops, j, n - 1);
      Slices(ops, j + 1, n - 1);
      TokensAre(right, rops);
      TokensAre(items[..n][j + 1..], ops[..n - 1][j + 1..]);
      LastToken(right, rops);
      assert ops[..n - 1][j] == ops[j];
    }
  }

  lemma {:induction false} TokensAre(items: seq<Item>, ops: seq<Token>)
    requires items != []
    ensures Tokens(items, ops) == When(items[0].not, KwNot) + Unnegated(items, ops)
  {
  }

  lemma {:induction false} LastToken(items: seq<Item>, ops: seq<Token>)
    requires |items| == |ops| + 1
    ensures var n := |items| - 1;
      Unnegated(items, ops) ==
      if n == 0 then ItemTokens(items[0])
      else Unnegated(items[..n], ops[..n - 1]) + [ops[n - 1]] + (When(items[n].not, KwNot) + ItemTokens(items[n]))
  {
    hide ItemTokens;
  }

  /** Between two comparisons stands an OR or an AND. */
  ghost predicate Apart(ops: seq<Token>) {
    forall i, j :: 0 <= i < j < |ops| && IsComparison(ops[i]) && IsComparison(ops[j]) ==>
      exists m :: i < m < j && (IsOr(ops[m]) || IsAnd(ops[m]))
  }

  lemma {:induction false} ApartParts(ops: seq<Token>, j: nat)
    requires Apart(ops) && j < |ops|
    ensures Apart(ops[..j]) && Apart(ops[j + 1..])
  {
    hide IsOr, IsAnd, IsComparison;
    var l, r := ops[..j], ops[j + 1..];
    forall a, b | 0 <= a < b < |l| && IsComparison(l[a]) && IsComparison(l[b])
      ensures exists m :: a < m < b && (IsOr(l[m]) || IsAnd(l[m]))
    {
      var m :| a < m < b && (IsOr(ops[m]) || IsAnd(ops[m]));
      assert l[m] == ops[m];
    }
    forall a, b | 0 <= a < b < |r| && IsComparison(r[a]) && IsComparison(r[b])
      ensures exists m :: a < m < b && (IsOr(r[m]) || IsAnd(r[m]))
    {
      assert r[a] == ops[a + j + 1] && r[b] == ops[b + j + 1];
      var m :| a + j + 1 < m < b + j + 1 && (IsOr(ops[m]) || IsAnd(ops[m]));
      assert r[m - j - 1] == ops[m];
    }
  }

  lemma {:induction false} ProperParts(items: seq<Item>, ops: seq<Token>, j: nat)
    requires Proper(items, ops) && j < |ops|
    ensures Proper(items[..j + 1], ops[..j]) && Proper(items[j + 1..], ops[j + 1..])
  {
    hide ProperItem, IsOperator, Apart;
    ApartParts(ops, j);
  }

  lemma {:induction false} OperatorFacts(t: Token, k: Class)
    requires InClass(t, k)
    ensures InfixOp(t) == Some((k, OperatorOf(t)))
  {
    hide OperatorOf, InfixOp;
    NamedAlike(t);
  }

  lemma {:induction false} NamedAlike(t: Token)
    ensures IsOr(t) ==> InfixOp(t) == Some((0, OperatorOf(t)))
    ensures IsAnd(t) ==> InfixOp(t) == Some((1, OperatorOf(t)))
    ensures IsComparison(t) ==> InfixOp(t) == Some((3, OperatorOf(t)))
    ensures IsSum(t) ==> InfixOp(t) == Some((4, OperatorOf(t)))
    ensures IsProduct(t) ==> InfixOp(t) == Some((5, OperatorOf(t)))
  {
    hide OperatorOf, InfixOp;
    ComparisonsAlike(t);
    SumsAlike(t);
    ProductsAlike(t);
    ConnectivesAlike(t);
  }

  lemma {:induction false} ConnectivesAlike(t: Token)
    ensures t == KwOr ==> InfixOp(t) == Some((0, OperatorOf(t)))
    ensures t == KwAnd ==> InfixOp(t) == Some((1, OperatorOf(t)))
  {
  }

  lemma {:induction false} ComparisonsAlike(t: Token)
    ensures IsComparison(t) ==> InfixOp(t) == Some((3, OperatorOf(t)))
  {
  }

  lemma {:induction false} SumsAlike(t: Token)
    ensures IsSum(t) ==> InfixOp(t) == Some((4, OperatorOf(t)))
  {
  }

  lemma {:induction false} ProductsAlike(t: Token)
    ensures IsProduct(t) ==> InfixOp(t) == Some((5, OperatorOf(t)))
  {
  }

  lemma {:induction false} OperandFacts(t: Token)
    requires IsOperand(t)
    ensures LitOf(t) == Some(Denoted(t))
  {
  }

  lemma {:induction false} ClassOf(t: Token) returns (k: Class)
    requires IsOperator(t)
    ensures k < 6 && InClass(t, k)
  {
    k := if IsOr(t) then 0 else if IsAnd(t) then 1 else if IsComparison(t) then 3 else if IsSum(t) then 4 else 5;
  }

  /** What is to be shown of a sequence at a class. */
  ghost predicate Right(up: string -> string, items: seq<Item>, ops: seq<Token>, k: Class) {
    var s := SynOf(items, ops, k);
    && Formed(s) && LevelOf(s) >= k && Meaning(up, s) == Grouped(items, ops, k)
    && Spell(s) == if k <= 2 then Tokens(items, ops) else Unnegated(items, ops)
  }

  lemma {:induction false} RightItem(up: string -> string, item: Item)
    requires ProperItem(item)
    ensures Right(up, [item], [], 6)
    decreases item, 0
  {
    hide Grouped, SynOf, Proper, Tokens, Right;
    match item {
      case Item(_, minus, One(t)) =>
        OperandFacts(t);
        SignedIs(up, minus, Leaf(t));
      case Item(_, minus, Group(items, ops)) =>
        NoneBelow(ops);
        RightAt(up, items, ops, 0);
        ParenIs(up, items, ops);
        SignedIs(up, minus, Paren(SynOf(items, ops, 0)));
    }
    ItemIs(up, item);
  }

  lemma {:induction false} SignedIs(up: string -> string, minus: bool, s: Syn)
    requires Formed(s) && LevelOf(s) >= 7
    ensures var m := Signed(minus, s);
      && Formed(m) && LevelOf(m) >= 6 && Meaning(up, m) == Negative(minus, Meaning(up, s))
      && Spell(m) == When(minus, Minus) + Spell(s)
  {
  }

  lemma {:induction false} ParenIs(up: string -> string, items: seq<Item>, ops: seq<Token>)
    requires Right(up, items, ops, 0)
    ensures var s := Paren(SynOf(items, ops, 0));
      && Formed(s) && LevelOf(s) >= 7 && Meaning(up, s) == Grouped(items, ops, 0)
      && Spell(s) == [LParen] + (Tokens(items, ops) + [RParen])
  {
    hide SynOf, Grouped, Tokens;
    SpellParen(SynOf(items, ops, 0));
  }

  lemma {:induction false} NoneBelow(ops: seq<Token>)
    ensures From(ops, 0)
  {
  }

  lemma {:induction false} ItemIs(up: string -> string, item: Item)
    requires var s := ItemSyn(item);
      Formed(s) && LevelOf(s) >= 6 && Meaning(up, s) == ItemMeaning(item) && Spell(s) == ItemTokens(item)
    ensures Right(up, [item], [], 6)
  {
    hide ItemSyn, ItemMeaning, ItemTokens;
  }

  lemma {:induction false} Sizes(items: seq<Item>, ops: seq<Token>)
    requires Proper(items, ops)
    ensures |items| == |ops| + 1
  {
  }

  lemma {:induction false} Lengths(items: seq<Item>, ops: seq<Token>, j: nat)
    requires Proper(items, ops) && j < |ops|
    ensures |items| == |ops| + 1
    ensures |items[..j + 1]| < |items| && |items[j + 1..]| < |items|
  {
  }

  lemma {:induction false} NotFrom(ops: seq<Token>, i: nat, c: Class, k: Class)
    requires i < |ops| && c < k && InClass(ops[i], c)
    ensures !From(ops, k)
  {
  }

  lemma {:induction false} NoOperators(ops: seq<Token>)
    requires forall i :: 0 <= i < |ops| ==> IsOperator(ops[i])
    ensures From(ops, 6) ==> ops == []
  {
    if ops != [] {
      var k := ClassOf(ops[0]);
      NotFrom(ops, 0, k, 6);
    }
  }

  lemma {:induction false} Single(items: seq<Item>, ops: seq<Token>)
    requires Proper(items, ops) && From(ops, 6)
    ensures ops == [] && |items| == 1 && items == [items[0]] && ProperItem(items[0])
  {
    hide From, ProperItem;
    NoOperators(ops);
  }

  lemma {:induction false} FromNext(ops: seq<Token>, k: Class)
    requires From(ops, k) && k < 6 && (k == 2 || LastOf(ops, k).None?)
    ensures From(ops, k + 1)
  {
    forall i, c: Class | 0 <= i < |ops| && c < k + 1
      ensures !InClass(ops[i], c)
    {
      if c < k {
        assert !InClass(ops[i], c);
      }
    }
  }

  lemma {:induction false} FromParts(items: seq<Item>, ops: seq<Token>, k: Class, j: nat)
    requires Proper(items, ops) && From(ops, k) && LastOf(ops, k) == Some(j)
    ensures From(ops[..j], if k == 3 then 4 else k) && From(ops[j + 1..], k + 1)
    ensures k >= 3 ==> !items[j + 1].not
  {
    hide ProperItem;
    var l, r := ops[..j], ops[j + 1..];
    forall i, c: Class | 0 <= i < |r| && c < k + 1
      ensures !InClass(r[i], c)
    {
      assert r[i] == ops[j + 1 + i];
      assert !InClass(ops[j + 1 + i], k);
    }
    forall i, c: Class | 0 <= i < |l| && c < (if k == 3 then 4 else k)
      ensures !InClass(l[i], c)
    {
      assert l[i] == ops[i];
      if c == 3 && IsComparison(ops[i]) && k == 3 {
        var m :| i < m < j && (IsOr(ops[m]) || IsAnd(ops[m]));
        NotFrom(ops, m, if IsOr(ops[m]) then 0 else 1, 3);
      }
    }
    if k >= 3 {
      assert !InClass(ops[j], 0) && !InClass(ops[j], 1);
    }
  }

  lemma {:induction false} RightNot(up: string -> string, items: seq<Item>, ops: seq<Token>)
    requires |items| == |ops| + 1 && Right(up, items, ops, 3)
    ensures Right(up, items, ops, 2)
  {
    hide Unnegated, Formed;
    NotFormed(SynOf(items, ops, 3));
  }

  lemma {:induction false} NotFormed(s: Syn)
    requires Formed(s) && LevelOf(s) >= 3
    ensures Formed(Not1(s))
  {
  }

  lemma {:induction false} RightSame(up: string -> string, items: seq<Item>, ops: seq<Token>, k: Class)
    requires |items| == |ops| + 1 && k < 6 && k != 2 && LastOf(ops, k).None? && Right(up, items, ops, k + 1)
    ensures Right(up, items, ops, k)
  {
    hide Unnegated, Tokens, Formed, Meaning, Spell, LevelOf;
  }

  lemma {:induction false} InfixFormed(up: string -> string, l: Syn, t: Token, r: Syn, k: Class)
    requires InClass(t, k) && Formed(l) && Formed(r)
    requires LevelOf(l) >= (if k == 3 then 4 else k) && LevelOf(r) >= k + 1
    ensures var s := Infix(l, t, r);
      && Formed(s) && LevelOf(s) == k && Spell(s) == Spell(l) + [t] + Spell(r)
      && Meaning(up, s) == Binary(Meaning(up, l), OperatorOf(t), Meaning(up, r))
  {
    OperatorFacts(t, k);
  }

  lemma {:induction false} JoinTokens(items: seq<Item>, ops: seq<Token>, j: nat)
    requires |items| == |ops| + 1 && j < |ops|
    ensures var li, lo, ri, ro := items[..j + 1], ops[..j], items[j + 1..], ops[j + 1..];
      && Tokens(items, ops) == Tokens(li, lo) + [ops[j]] + Tokens(ri, ro)
      && (!items[j + 1].not ==> Unnegated(items, ops) == Unnegated(li, lo) + [ops[j]] + Unnegated(ri, ro))
  {
    hide Unnegated;
    var li, lo, ri, ro := items[..j + 1], ops[..j], items[j + 1..], ops[j + 1..];
    SplitTokens(items, ops, j);
    assert li[0] == items[0] && ri[0] == items[j + 1];
    var not := When(items[0].not, KwNot);
    assert not + (Unnegated(li, lo) + [ops[j]] + Tokens(ri, ro))
        == (not + Unnegated(li, lo)) + [ops[j]] + Tokens(ri, ro);
    assert Tokens(li, lo) == not + Unnegated(li, lo);
    assert !items[j + 1].not ==> Tokens(ri, ro) == [] + Unnegated(ri, ro) == Unnegated(ri, ro);
  }

  lemma {:induction false} NoComparison(ops: seq<Token>)
    ensures From(ops, 4) ==> LastOf(ops, 3).None?
  {
    if LastOf(ops, 3).Some? {
      NotFrom(ops, LastOf(ops, 3).value, 3, 4);
    }
  }

  lemma {:induction false} AtLast(items: seq<Item>, ops: seq<Token>, k: Class, j: nat)
    requires |items| == |ops| + 1 && k != 2 && k < 6 && LastOf(ops, k) == Some(j)
    ensures SynOf(items, ops, k) ==
      Infix(SynOf(items[..j + 1], ops[..j], k), ops[j], SynOf(items[j + 1..], ops[j + 1..], k + 1))
    ensures Grouped(items, ops, k) ==
      Binary(Grouped(items[..j + 1], ops[..j], k), OperatorOf(ops[j]), Grouped(items[j + 1..], ops[j + 1..], k + 1))
  {
  }

  lemma {:induction false} NoneOfThem(items: seq<Item>, ops: seq<Token>)
    requires |items| == |ops| + 1 && LastOf(ops, 3).None?
    ensures SynOf(items, ops, 3) == SynOf(items, ops, 4) && Grouped(items, ops, 3) == Grouped(items, ops, 4)
  {
  }

  lemma {:induction false} RightInfix(up: string -> string, items: seq<Item>, ops: seq<Token>, k: Class, j: nat)
    requires |items| == |ops| + 1 && k != 2 && k < 6 && LastOf(ops, k) == Some(j)
    requires Right(up, items[..j + 1], ops[..j], if k == 3 then 4 else k)
    requires k == 3 ==> LastOf(ops[..j], 3).None?
    requires Right(up, items[j + 1..], ops[j + 1..], k + 1) && (k >= 3 ==> !items[j + 1].not)
    ensures Right(up, items, ops, k)
  {
    hide SynOf, Grouped, Tokens, Unnegated, Formed, Meaning, Spell, LevelOf, LastOf, OperatorOf;
    var li, lo, ri, ro := items[..j + 1], ops[..j], items[j + 1..], ops[j + 1..];
    if k == 3 {
      NoneOfThem(li, lo);
    }
    InfixFormed(up, SynOf(li, lo, k), ops[j], SynOf(ri, ro, k + 1), k);
    AtLast(items, ops, k, j);
    JoinTokens(items, ops, j);
  }

  lemma {:induction false} RightAt(up: string -> string, items: seq<Item>, ops: seq<Token>, k: Class)
    requires Proper(items, ops) && From(ops, k)
    ensures Right(up, items, ops, k)
    decreases items, 8 - k
  {
    hide Grouped, SynOf, Proper, ProperItem, Tokens, Unnegated, Right, From;
    Sizes(items, ops);
    if k == 6 {
      Single(items, ops);
      RightItem(up, items[0]);
    } else if k == 2 {
      FromNext(ops, 2);
      RightAt(up, items, ops, 3);
      RightNot(up, items, ops);
    } else if LastOf(ops, k).None? {
      FromNext(ops, k);
      RightAt(up, items, ops, k + 1);
      RightSame(up, items, ops, k);
    } else {
      var j := LastOf(ops, k).value;
      ProperParts(items, ops, j);
      FromParts(items, ops, k, j);
      Lengths(items, ops, j);
      RightAt(up, items[..j + 1], ops[..j], if k == 3 then 4 else k);
      RightAt(up, items[j + 1..], ops[j + 1..], k + 1);
      NoComparison(ops[..j]);
      RightInfix(up, items, ops, k, j);
    }
  }

  // ------------------------------------------------------------------
  // What the parser reads.
  // ------------------------------------------------------------------

  /** `w` stands in `ts` from `i` on, and then a token that ends an expression. */
  ghost predicate Stands(ts: seq<Token>, i: nat, w: seq<Token>) {
    i + |w| <= |ts| && ts[i..i + |w|] == w && Closes(Peek(ts, i + |w|))
  }

  /** Every proper sequence of operands and operators, of any length and with any parentheses, NOTs and
      minus signs, is read with the precedence and to the left as listed. */
  lemma {:induction false} ReadsGrouped(up: string -> string, ts: seq<Token>, i: nat, items: seq<Item>, ops: seq<Token>)
    requires Proper(items, ops) && Stands(ts, i, Tokens(items, ops))
    ensures Read(up, ts, i, 0) == Done(Grouped(items, ops, 0), i + |Tokens(items, ops)|)
  {
    hide Grouped, SynOf, Proper, Tokens, Unnegated, Read, Formed, Meaning, Spell;
    NoneBelow(ops);
    RightAt(up, items, ops, 0);
    ReadBack(up, ts, i, SynOf(items, ops, 0), 0);
  }

  function Plain(t: Token): Item { Item(false, false, One(t)) }

  /** Two operators between operands: the tighter one first, and of equal ones the left one first. */
  lemma {:induction false} TwoOperators(up: string -> string, ts: seq<Token>, i: nat, a: Token, s: Token, b: Token,
      t: Token, c: Token)
    requires IsOperand(a) && IsOperand(b) && IsOperand(c) && IsOperator(s) && IsOperator(t)
    requires Stands(ts, i, [a, s, b, t, c]) && !(IsComparison(s) && IsComparison(t))
    ensures Looser(s, t) ==>
      Read(up, ts, i, 0) ==
      Done(Binary(Denoted(a), OperatorOf(s), Binary(Denoted(b), OperatorOf(t), Denoted(c))), i + 5)
    ensures !Looser(s, t) ==>
      Read(up, ts, i, 0) ==
      Done(Binary(Binary(Denoted(a), OperatorOf(s), Denoted(b)), OperatorOf(t), Denoted(c)), i + 5)
  {
    hide Read, Denoted, OperatorOf, Proper, Grouped, Tokens;
    var items, ops := [Plain(a), Plain(b), Plain(c)], [s, t];
    PairProper(a, s, b, t, c);
    PairTokens(a, s, b, t, c);
    ReadsGrouped(up, ts, i, items, ops);
    PairGrouped(a, s, b, t, c);
  }

  lemma {:induction false} PairProper(a: Token, s: Token, b: Token, t: Token, c: Token)
    requires IsOperand(a) && IsOperand(b) && IsOperand(c) && IsOperator(s) && IsOperator(t)
    requires !(IsComparison(s) && IsComparison(t))
    ensures Proper([Plain(a), Plain(b), Plain(c)], [s, t])
  {
    hide IsOperand, IsOperator;
  }

  lemma {:induction false} PairTokens(a: Token, s: Token, b: Token, t: Token, c: Token)
    ensures Tokens([Plain(a), Plain(b), Plain(c)], [s, t]) == [a, s, b, t, c]
  {
    var items, ops := [Plain(a), Plain(b), Plain(c)], [s, t];
    assert items[..2] == [Plain(a), Plain(b)] && ops[..1] == [s];
    assert items[..2][..1] == [Plain(a)] && ops[..1][..0] == [];
    assert Unnegated([Plain(a)], []) == [a];
    assert Unnegated([Plain(a), Plain(b)], [s]) == [a] + [s] + [b];
    assert Unnegated(items, ops) == [a, s, b] + [t] + [c];
  }

  lemma {:induction false} GroupedOne(a: Token, k: Class)
    ensures Grouped([Plain(a)], [], k) == Denoted(a)
    decreases 6 - k
  {
    hide Denoted;
    if k < 6 {
      GroupedOne(a, k + 1);
    }
  }

  lemma {:induction false} ClassUnique(t: Token, k: Class, m: Class)
    requires InClass(t, k) && InClass(t, m)
    ensures k == m
  {
    hide IsOr, IsAnd, IsComparison, IsSum, IsProduct;
    Exclusive(t);
  }

  lemma {:induction false} LastSingle(s: Token, k: Class)
    ensures LastOf([s], k) == if InClass(s, k) then Some(0) else None
  {
  }

  lemma {:induction false} GroupedTwo(a: Token, s: Token, b: Token, k: Class, m: Class)
    requires InClass(s, m) && k <= m
    ensures Grouped([Plain(a), Plain(b)], [s], k) == Binary(Denoted(a), OperatorOf(s), Denoted(b))
    decreases m - k
  {
    hide Denoted, OperatorOf, InClass, LastOf;
    var items, ops := [Plain(a), Plain(b)], [s];
    LastSingle(s, k);
    if k == m {
      assert items[..1] == [Plain(a)] && items[1..] == [Plain(b)] && ops[..0] == [] && ops[1..] == [];
      GroupedOne(a, k);
      NotTwo(s, k);
      GroupedOne(b, k + 1);
    } else {
      if InClass(s, k) { ClassUnique(s, k, m); }
      GroupedTwo(a, s, b, k + 1, m);
    }
  }

  lemma {:induction false} NotTwo(t: Token, k: Class)
    requires InClass(t, k)
    ensures k != 2 && k < 6
  {
  }

  lemma {:induction false} LastPair(s: Token, t: Token, k: Class)
    ensures LastOf([s, t], k) == if InClass(t, k) then Some(1) else if InClass(s, k) then Some(0) else None
  {
    hide InClass;
    assert [s, t][..1] == [s];
    LastSingle(s, k);
  }

  lemma {:induction false} LooserClass(s: Token, t: Token, m: Class, n: Class)
    requires InClass(s, m) && InClass(t, n)
    ensures Looser(s, t) <==> m < n
  {
    hide IsOr, IsAnd, IsComparison, IsSum, IsProduct;
    Exclusive(s);
    Exclusive(t);
  }

  lemma {:induction false} Exclusive(t: Token)
    ensures IsOr(t) ==> !IsAnd(t) && !IsComparison(t) && !IsSum(t) && !IsProduct(t)
    ensures IsAnd(t) ==> !IsComparison(t) && !IsSum(t) && !IsProduct(t)
    ensures IsComparison(t) ==> !IsSum(t) && !IsProduct(t)
    ensures IsSum(t) ==> !IsProduct(t)
  {
  }

  lemma {:induction false} GroupedOn(items: seq<Item>, ops: seq<Token>, k: Class)
    requires |items| == |ops| + 1 && k < 6 && (if k == 2 then !items[0].not else LastOf(ops, k).None?)
    ensures Grouped(items, ops, k) == Grouped(items, ops, k + 1)
  {
  }

  lemma {:induction false} GroupedThree(a: Token, s: Token, b: Token, t: Token, c: Token, k: Class, m: Class, n: Class)
    requires InClass(s, m) && InClass(t, n) && k <= m && k <= n
    ensures Grouped([Plain(a), Plain(b), Plain(c)], [s, t], k) ==
      if m < n then Binary(Denoted(a), OperatorOf(s), Binary(Denoted(b), OperatorOf(t), Denoted(c)))
      else Binary(Binary(Denoted(a), OperatorOf(s), Denoted(b)), OperatorOf(t), Denoted(c))
    decreases m - k
  {
    hide Denoted, OperatorOf, InClass, LastOf, Grouped, SynOf;
    var items, ops := [Plain(a), Plain(b), Plain(c)], [s, t];
    LastPair(s, t, k);
    NotTwo(s, m);
    NotTwo(t, n);
    if k == n {
      assert items[..2] == [Plain(a), Plain(b)] && items[2..] == [Plain(c)] && ops[..1] == [s] && ops[2..] == [];
      AtLast(items, ops, k, 1);
      GroupedTwo(a, s, b, k, m);
      GroupedOne(c, k + 1);
    } else if k == m {
      if InClass(t, k) { ClassUnique(t, k, n); }
      assert items[..1] == [Plain(a)] && items[1..] == [Plain(b), Plain(c)] && ops[..0] == [] && ops[1..] == [t];
      AtLast(items, ops, k, 0);
      GroupedOne(a, k);
      GroupedTwo(b, t, c, k + 1, n);
    } else {
      if InClass(s, k) { ClassUnique(s, k, m); }
      if InClass(t, k) { ClassUnique(t, k, n); }
      GroupedOn(items, ops, k);
      GroupedThree(a, s, b, t, c, k + 1, m, n);
    }
  }

  lemma {:induction false} PairGrouped(a: Token, s: Token, b: Token, t: Token, c: Token)
    requires IsOperator(s) && IsOperator(t)
    ensures Grouped([Plain(a), Plain(b), Plain(c)], [s, t], 0) ==
      if Looser(s, t) then Binary(Denoted(a), OperatorOf(s), Binary(Denoted(b), OperatorOf(t), Denoted(c)))
      else Binary(Binary(Denoted(a), OperatorOf(s), Denoted(b)), OperatorOf(t), Denoted(c))
  {
    hide Denoted, OperatorOf, Looser, IsOperator;
    var m := ClassOf(s);
    var n := ClassOf(t);
    LooserClass(s, t, m, n);
    GroupedThree(a, s, b, t, c, 0, m, n);
  }

  /** A second comparison is not read: the first one ends the expression. */
  lemma {:induction false} ComparisonsStop(up: string -> string, ts: seq<Token>, i: nat, a: Token, s: Token, b: Token,
      t: Token)
    requires IsOperand(a) && IsOperand(b) && IsComparison(s) && IsComparison(t)
    requires i + 4 <= |ts| && ts[i..i + 4] == [a, s, b, t]
    ensures Read(up, ts, i, 0) == Done(Binary(Denoted(a), OperatorOf(s), Denoted(b)), i + 3)
  {
    hide Denoted, OperatorOf;
    assert ts[i] == ts[i..i + 4][0] && ts[i + 1] == ts[i..i + 4][1];
    assert ts[i + 2] == ts[i..i + 4][2] && ts[i + 3] == ts[i..i + 4][3];
    ReadOperand(up, ts, i, a, 4);
    ReadOperand(up, ts, i + 2, b, 4);
    var e := Binary(Denoted(a), OperatorOf(s), Denoted(b));
    CompareTwo(up, ts, i, a, s, b);
    StopsAll(up, ts, i, e, i + 3);
  }

  lemma {:induction false} ReadOperand(up: string -> string, ts: seq<Token>, i: nat, a: Token, level: Level)
    requires i < |ts| && ts[i] == a && IsOperand(a)
    requires IsComparison(Peek(ts, i + 1)) && 4 <= level
    ensures Read(up, ts, i, level) == Done(Denoted(a), i + 1)
  {
    hide Read, Denoted;
    OperandFacts(a);
    assert Here(ts, i, [a]);
    ReadBack(up, ts, i, Leaf(a), level);
  }

  lemma {:induction false} CompareTwo(up: string -> string, ts: seq<Token>, i: nat, a: Token, s: Token, b: Token)
    requires i + 3 <= |ts| && ts[i + 1] == s && IsComparison(s) && IsOperand(a) && ts[i] == a
    requires Read(up, ts, i, 4) == Done(Denoted(a), i + 1) && Read(up, ts, i + 2, 4) == Done(Denoted(b), i + 3)
    ensures Read(up, ts, i, 3) == Done(Binary(Denoted(a), OperatorOf(s), Denoted(b)), i + 3)
  {
    hide Denoted, OperatorOf, InfixOp;
    NamedAlike(s);
    assert Compare(up, ts, i + 1, Denoted(a)) == Done(Binary(Denoted(a), OperatorOf(s), Denoted(b)), i + 3);
  }

  lemma {:induction false} StopsAll(up: string -> string, ts: seq<Token>, i: nat, e: Expr, j: nat)
    requires i < |ts| && j <= |ts| && Read(up, ts, i, 3) == Done(e, j) && !Peek(ts, i).KwNot?
    requires IsComparison(Peek(ts, j))
    ensures Read(up, ts, i, 0) == Done(e, j)
  {
    hide Compare, Primary;
    assert Read(up, ts, i, 2) == Done(e, j);
    assert Chain(up, ts, j, 1, e) == Done(e, j);
    assert Read(up, ts, i, 1) == Done(e, j);
    assert Chain(up, ts, j, 0, e) == Done(e, j);
  }

  // ------------------------------------------------------------------
  // The other forms, token by token.
  // ------------------------------------------------------------------

  /** A reading of concrete syntax that stands before a closing token. */
  lemma {:induction false} ReadsSyn(up: string -> string, ts: seq<Token>, i: nat, s: Syn)
    requires Formed(s) && Stands(ts, i, Spell(s))
    ensures Read(up, ts, i, 0) == Done(Meaning(up, s), i + |Spell(s)|)
  {
    hide Read, Formed, Spell, Meaning, LevelOf;
    ReadBack(up, ts, i, s, 0);
  }

  /** NOT covers a comparison and an arithmetic operator, but not AND and OR. */
  lemma {:induction false} NotReads(up: string -> string, ts: seq<Token>, i: nat, a: Token, s: Token, b: Token)
    requires IsOperand(a) && IsOperand(b) && IsOperator(s) && Stands(ts, i, [KwNot, a, s, b])
    ensures Read(up, ts, i, 0) == Done(
      if IsAnd(s) || IsOr(s) then Binary(Unary(OpNot, Denoted(a)), OperatorOf(s), Denoted(b))
      else Unary(OpNot, Binary(Denoted(a), OperatorOf(s), Denoted(b))), i + 4)
  {
    hide Read, Denoted, OperatorOf, IsOperand, Formed, Spell, Meaning, LevelOf, Stands;
    LeafIs(up, a);
    LeafIs(up, b);
    var k := ClassOf(s);
    NotTwo(s, k);
    ClassIs(s, k);
    var la, lb := Leaf(a), Leaf(b);
    if k <= 1 {
      NotIs(up, la);
      InfixFormed(up, Not1(la), s, lb, k);
      assert Spell(Infix(Not1(la), s, lb)) == [KwNot, a, s, b];
      ReadsSyn(up, ts, i, Infix(Not1(la), s, lb));
    } else {
      InfixFormed(up, la, s, lb, k);
      NotIs(up, Infix(la, s, lb));
      assert Spell(Not1(Infix(la, s, lb))) == [KwNot, a, s, b];
      ReadsSyn(up, ts, i, Not1(Infix(la, s, lb)));
    }
  }

  /** Minus covers its operand only. */
  lemma {:induction false} MinusReads(up: string -> string, ts: seq<Token>, i: nat, a: Token, s: Token, b: Token)
    requires IsOperand(a) && IsOperand(b) && IsOperator(s) && Stands(ts, i, [Minus, a, s, b])
    ensures Read(up, ts, i, 0) == Done(Binary(Unary(OpNeg, Denoted(a)), OperatorOf(s), Denoted(b)), i + 4)
  {
    hide Read, Denoted, OperatorOf, IsOperand, Formed, Spell, Meaning, LevelOf, Stands;
    LeafIs(up, a);
    LeafIs(up, b);
    var k := ClassOf(s);
    NotTwo(s, k);
    var la, lb := Leaf(a), Leaf(b);
    SignedIs(up, true, la);
    InfixFormed(up, Minus1(la), s, lb, k);
    assert Spell(Infix(Minus1(la), s, lb)) == [Minus, a, s, b];
    ReadsSyn(up, ts, i, Infix(Minus1(la), s, lb));
  }

  lemma {:induction false} ClassIs(t: Token, k: Class)
    requires InClass(t, k)
    ensures k <= 1 <==> IsAnd(t) || IsOr(t)
  {
  }

  lemma {:induction false} NotIs(up: string -> string, s: Syn)
    requires Formed(s)
    ensures LevelOf(s) >= 3 ==> Formed(Not1(s))
    ensures LevelOf(Not1(s)) == 2 && Spell(Not1(s)) == [KwNot] + Spell(s)
        && Meaning(up, Not1(s)) == Unary(OpNot, Meaning(up, s))
  {
  }

  /** An operand as concrete syntax. */
  ghost predicate LeafLike(up: string -> string, s: Syn, t: Token) {
    Formed(s) && LevelOf(s) == 7 && Spell(s) == [t] && Meaning(up, s) == Denoted(t)
  }

  lemma {:induction false} LeafIs(up: string -> string, t: Token)
    requires IsOperand(t)
    ensures LeafLike(up, Leaf(t), t)
  {
    hide IsOperand, Denoted;
    OperandFacts(t);
  }

  lemma {:induction false} NullIs(up: string -> string, p: Syn, a: Token, n: bool)
    requires LeafLike(up, p, a)
    ensures var s := Null1(p, n);
      && Formed(s) && Spell(s) == [a] + [KwIs] + When(n, KwNot) + [KwNull] && Meaning(up, s) == IsNull(Denoted(a), n)
  {
    hide Denoted;
  }

  lemma {:induction false} RangeIs(up: string -> string, p: Syn, l: Syn, h: Syn, a: Token, b: Token, c: Token, n: bool)
    requires LeafLike(up, p, a) && LeafLike(up, l, b) && LeafLike(up, h, c)
    ensures var s := Range(p, l, h, n);
      && Formed(s) && Spell(s) == [a] + When(n, KwNot) + [KwBetween] + [b] + [KwAnd] + [c]
      && Meaning(up, s) == Between(Denoted(a), Denoted(b), Denoted(c), n)
  {
    hide Denoted, Spell;
    SpellRange(p, l, h, n);
    assert [a] + (When(n, KwNot) + ([KwBetween] + ([b] + ([KwAnd] + [c])))) ==
           [a] + When(n, KwNot) + [KwBetween] + [b] + [KwAnd] + [c];
  }

  lemma {:induction false} MatchIs(up: string -> string, p: Syn, q: Syn, a: Token, b: Token, glob: bool, n: bool)
    requires LeafLike(up, p, a) && LeafLike(up, q, b)
    ensures var s := Match(p, glob, q, n);
      && Formed(s) && Spell(s) == [a] + When(n, KwNot) + [if glob then KwGlob else KwLike] + [b]
      && Meaning(up, s) == if glob then Glob(Denoted(a), Denoted(b), n) else Like(Denoted(a), Denoted(b), n)
  {
    hide Denoted;
  }

  lemma {:induction false} MemberIs(up: string -> string, p: Syn, q: Syn, r: Syn, a: Token, b: Token, c: Token, n: bool)
    requires LeafLike(up, p, a) && LeafLike(up, q, b) && LeafLike(up, r, c)
    ensures var s := Member(p, [q, r], false, n);
      && Formed(s) && Spell(s) == [a] + When(n, KwNot) + [KwIn, LParen] + [b, Comma, c] + [RParen]
      && Meaning(up, s) == InList(Denoted(a), [Denoted(b), Denoted(c)], n)
  {
    hide Denoted, SpellItems, Meanings, Spell;
    ItemsOfTwo(up, q, r, b, c);
    SpellMember(p, [q, r], false, n);
    assert [a] + (When(n, KwNot) + ([KwIn] + ([LParen] + ([b, Comma, c] + [RParen])))) ==
           [a] + When(n, KwNot) + [KwIn, LParen] + [b, Comma, c] + [RParen];
  }

  lemma {:induction false} ItemsOfTwo(up: string -> string, q: Syn, r: Syn, b: Token, c: Token)
    requires LeafLike(up, q, b) && LeafLike(up, r, c)
    ensures SpellItems([q, r], false) == [b, Comma, c]
    ensures Meanings(up, [q, r]) == [Denoted(b), Denoted(c)]
  {
    hide Spell, Meaning, Denoted;
    var items := [q, r];
    assert items[1..] == [r] && items[1..][1..] == [];
    assert Meanings(up, items[1..]) == [Meaning(up, r)] + [];
    assert SpellMore([], false) == [];
    assert SpellMore(items[1..], false) == [Comma] + [c] + [];
  }

  /** IS NULL and IS NOT NULL. */
  lemma {:induction false} NullReads(up: string -> string, ts: seq<Token>, i: nat, a: Token, not: bool)
    requires IsOperand(a)
    requires Stands(ts, i, if not then [a, KwIs, KwNot, KwNull] else [a, KwIs, KwNull])
    ensures Read(up, ts, i, 0) == Done(IsNull(Denoted(a), not), if not then i + 4 else i + 3)
  {
    hide Read, Denoted, IsOperand, Formed, Spell, Meaning, LeafLike, Stands;
    LeafIs(up, a);
    var s := Null1(Leaf(a), not);
    NullIs(up, Leaf(a), a, not);
    assert Spell(s) == if not then [a, KwIs, KwNot, KwNull] else [a, KwIs, KwNull];
    ReadsSyn(up, ts, i, s);
  }

  /** BETWEEN and NOT BETWEEN: the AND belongs to it. */
  lemma {:induction false} BetweenReads(up: string -> string, ts: seq<Token>, i: nat, a: Token, b: Token, c: Token,
      not: bool)
    requires IsOperand(a) && IsOperand(b) && IsOperand(c)
    requires Stands(ts, i, if not then [a, KwNot, KwBetween, b, KwAnd, c] else [a, KwBetween, b, KwAnd, c])
    ensures Read(up, ts, i, 0) ==
      Done(Between(Denoted(a), Denoted(b), Denoted(c), not), if not then i + 6 else i + 5)
  {
    hide Read, Denoted, IsOperand, Formed, Spell, Meaning, LeafLike, Stands;
    LeafIs(up, a);
    LeafIs(up, b);
    LeafIs(up, c);
    var s := Range(Leaf(a), Leaf(b), Leaf(c), not);
    RangeIs(up, Leaf(a), Leaf(b), Leaf(c), a, b, c, not);
    assert Spell(s) == if not then [a, KwNot, KwBetween, b, KwAnd, c] else [a, KwBetween, b, KwAnd, c];
    ReadsSyn(up, ts, i, s);
  }

  /** IN and NOT IN, with a list of two. */
  lemma {:induction false} InReads(up: string -> string, ts: seq<Token>, i: nat, a: Token, b: Token, c: Token,
      not: bool)
    requires IsOperand(a) && IsOperand(b) && IsOperand(c)
    requires Stands(ts, i, if not then [a, KwNot, KwIn, LParen, b, Comma, c, RParen]
                           else [a, KwIn, LParen, b, Comma, c, RParen])
    ensures Read(up, ts, i, 0) ==
      Done(InList(Denoted(a), [Denoted(b), Denoted(c)], not), if not then i + 8 else i + 7)
  {
    hide Read, Denoted, IsOperand, Formed, Spell, Meaning, LeafLike, Stands;
    LeafIs(up, a);
    LeafIs(up, b);
    LeafIs(up, c);
    var s := Member(Leaf(a), [Leaf(b), Leaf(c)], false, not);
    MemberIs(up, Leaf(a), Leaf(b), Leaf(c), a, b, c, not);
    assert Spell(s) ==
      if not then [a, KwNot, KwIn, LParen, b, Comma, c, RParen] else [a, KwIn, LParen, b, Comma, c, RParen];
    ReadsSyn(up, ts, i, s);
  }

  /** LIKE and GLOB, with and without NOT. */
  lemma {:induction false} PatternReads(up: string -> string, ts: seq<Token>, i: nat, a: Token, b: Token, glob: bool,
      not: bool)
    requires IsOperand(a) && IsOperand(b)
    requires var kw := if glob then KwGlob else KwLike; Stands(ts, i, if not then [a, KwNot, kw, b] else [a, kw, b])
    ensures glob ==> Read(up, ts, i, 0) == Done(Glob(Denoted(a), Denoted(b), not), if not then i + 4 else i + 3)
    ensures !glob ==> Read(up, ts, i, 0) == Done(Like(Denoted(a), Denoted(b), not), if not then i + 4 else i + 3)
  {
    hide Read, Denoted, IsOperand, Formed, Spell, Meaning, LeafLike, Stands;
    LeafIs(up, a);
    LeafIs(up, b);
    var s := Match(Leaf(a), glob, Leaf(b), not);
    MatchIs(up, Leaf(a), Leaf(b), a, b, glob, not);
    var kw := if glob then KwGlob else KwLike;
    assert Spell(s) == if not then [a, KwNot, kw, b] else [a, kw, b];
    ReadsSyn(up, ts, i, s);
  }

  /** CAST, by the name of the type. */
  lemma {:induction false} CastReads(up: string -> string, ts: seq<Token>, i: nat, a: Token, t: Token)
    requires IsOperand(a) && Stands(ts, i, [KwCast, LParen, a, KwAs, t, RParen])
    ensures t == KwInteger ==> Read(up, ts, i, 0) == Done(Cast(Denoted(a), TInteger), i + 6)
    ensures t == KwReal ==> Read(up, ts, i, 0) == Done(Cast(Denoted(a), TReal), i + 6)
    ensures t == KwText ==> Read(up, ts, i, 0) == Done(Cast(Denoted(a), TText), i + 6)
    ensures t == KwBlob ==> Read(up, ts, i, 0) == Done(Cast(Denoted(a), TBlob), i + 6)
    ensures t == KwBoolean ==> Read(up, ts, i, 0) == Done(Cast(Denoted(a), TBoolean), i + 6)
    ensures t == KwNull ==> Read(up, ts, i, 0) == Done(Cast(Denoted(a), TNull), i + 6)
  {
    hide Read, Denoted, IsOperand, Formed, Spell, Meaning, LeafLike, Stands, TypeOf;
    LeafIs(up, a);
    TypeNamed(t);
    if TypeOf(t).Some? {
      CastIs(up, Leaf(a), a, t);
      assert Spell(CastAs(Leaf(a), t)) == [KwCast, LParen, a, KwAs, t, RParen];
      ReadsSyn(up, ts, i, CastAs(Leaf(a), t));
    }
  }

  lemma {:induction false} TypeNamed(t: Token)
    ensures t == KwInteger ==> TypeOf(t) == Some(TInteger)
    ensures t == KwReal ==> TypeOf(t) == Some(TReal)
    ensures t == KwText ==> TypeOf(t) == Some(TText)
    ensures t == KwBlob ==> TypeOf(t) == Some(TBlob)
    ensures t == KwBoolean ==> TypeOf(t) == Some(TBoolean)
    ensures t == KwNull ==> TypeOf(t) == Some(TNull)
  {
  }

  lemma {:induction false} CastIs(up: string -> string, p: Syn, a: Token, t: Token)
    requires LeafLike(up, p, a) && TypeOf(t).Some?
    ensures var s := CastAs(p, t);
      && Formed(s) && Spell(s) == [KwCast, LParen] + [a] + [KwAs, t, RParen]
      && Meaning(up, s) == Cast(Denoted(a), TypeOf(t).value)
  {
    hide Denoted, TypeOf;
  }

  /** A column of a table; the words for types may name it. */
  lemma {:induction false} DottedReads(up: string -> string, ts: seq<Token>, i: nat, table: string, c: Token)
    requires Stands(ts, i, [Ident(table), Dot, c])
    ensures c.Ident? ==> Read(up, ts, i, 0) == Done(Column(Some(table), c.name), i + 3)
    ensures c == KwText ==> Read(up, ts, i, 0) == Done(Column(Some(table), "text"), i + 3)
    ensures c == KwInteger ==> Read(up, ts, i, 0) == Done(Column(Some(table), "integer"), i + 3)
    ensures c == KwReal ==> Read(up, ts, i, 0) == Done(Column(Some(table), "real"), i + 3)
    ensures c == KwBlob ==> Read(up, ts, i, 0) == Done(Column(Some(table), "blob"), i + 3)
    ensures c == KwBoolean ==> Read(up, ts, i, 0) == Done(Column(Some(table), "boolean"), i + 3)
  {
    hide Read, Stands;
    if IdentOf(c).Some? {
      ReadsSyn(up, ts, i, Dotted(table, c));
    }
  }

  /** A function of one argument, of DISTINCT, of everything and of nothing. */
  lemma {:induction false} CallReads(up: string -> string, ts: seq<Token>, i: nat, f: string, a: Token, distinct: bool)
    requires IsOperand(a)
    ensures !distinct && Stands(ts, i, [Ident(f), LParen, a, RParen]) ==>
      Read(up, ts, i, 0) == Done(Function(up(f), [Denoted(a)], false), i + 4)
    ensures distinct && Stands(ts, i, [Ident(f), LParen, KwDistinct, a, RParen]) ==>
      Read(up, ts, i, 0) == Done(Function(up(f), [Denoted(a)], true), i + 5)
    ensures Stands(ts, i, [Ident(f), LParen, Star, RParen]) ==>
      Read(up, ts, i, 0) == Done(Function(up(f), [Column(None, "*")], false), i + 4)
    ensures Stands(ts, i, [Ident(f), LParen, RParen]) ==>
      Read(up, ts, i, 0) == Done(Function(up(f), [], false), i + 3)
  {
    hide Read, Denoted, IsOperand, Formed, Spell, Meaning, LeafLike, Stands;
    LeafIs(up, a);
    CallIs(up, Leaf(a), a, f, distinct);
    EmptyCalls(up, f);
    var call := Call(f, distinct, [Leaf(a)], false);
    if distinct && Stands(ts, i, [Ident(f), LParen, KwDistinct, a, RParen]) {
      ReadsSyn(up, ts, i, call);
    }
    if !distinct && Stands(ts, i, [Ident(f), LParen, a, RParen]) {
      ReadsSyn(up, ts, i, call);
    }
    if Stands(ts, i, [Ident(f), LParen, Star, RParen]) {
      ReadsSyn(up, ts, i, CallStar(f, false));
    }
    if Stands(ts, i, [Ident(f), LParen, RParen]) {
      ReadsSyn(up, ts, i, Call(f, false, [], false));
    }
  }

  lemma {:induction false} CallIs(up: string -> string, p: Syn, a: Token, f: string, d: bool)
    requires LeafLike(up, p, a)
    ensures var s := Call(f, d, [p], false);
      && Formed(s) && Meaning(up, s) == Function(up(f), [Denoted(a)], d)
      && Spell(s) == if d then [Ident(f), LParen, KwDistinct, a, RParen] else [Ident(f), LParen, a, RParen]
  {
    hide Denoted;
    assert [p][1..] == [];
    assert SpellItems([p], false) == Spell(p) + SpellMore([], false) == [a] + [];
    assert Meanings(up, [p]) == [Meaning(up, p)] + [];
  }

  lemma {:induction false} EmptyCalls(up: string -> string, f: string)
    ensures var s := CallStar(f, false);
      && Formed(s) && Meaning(up, s) == Function(up(f), [Column(None, "*")], false)
      && Spell(s) == [Ident(f), LParen, Star, RParen]
    ensures var s := Call(f, false, [], false);
      && Formed(s) && Meaning(up, s) == Function(up(f), [], false) && Spell(s) == [Ident(f), LParen, RParen]
  {
    assert SpellItems([], false) == [];
  }

  /** Where a SELECT or WITH follows an opening parenthesis, and after EXISTS, a subquery is reported. */
  lemma {:induction false} SubqueriesReported(up: string -> string, ts: seq<Token>, i: nat)
    requires i + 1 < |ts| && Peek(ts, i + 1) in {KwSelect, KwWith, LParen}
    ensures ts[i] == LParen && ts[i + 1] != LParen ==> Read(up, ts, i, 7) == Subquery
    ensures ts[i] == KwExists && ts[i + 1] == LParen ==> Read(up, ts, i, 7) == Subquery
  {
    hide Compare, Chain, Apply, CastOf;
    assert Peek(ts, i) == ts[i];
    assert Read(up, ts, i, 7) == Primary(up, ts, i);
    assert ts[i] == LParen ==> Primary(up, ts, i) == ParenOf(up, ts, i + 1);
  }
}
