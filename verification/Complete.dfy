/** Whatever the grammar derives, the parser reads: every spelling of an expression yields that
    expression, whatever parentheses it carries beyond those it needs. */
module Complete {
  import opened Keys
  import opened Grammar
  import opened Descent

  /** `w` stands in `ts` at `i`. */
  ghost predicate Here(ts: seq<Token>, i: nat, w: seq<Token>) {
    i + |w| <= |ts| && ts[i..i + |w|] == w
  }

  lemma {:induction false} Split(ts: seq<Token>, i: nat, a: seq<Token>, b: seq<Token>)
    requires Here(ts, i, a + b)
    ensures Here(ts, i, a) && Here(ts, i + |a|, b)
  {
    var w := ts[i..i + |a| + |b|];
    assert a == w[..|a|] && b == w[|a|..];
  }

  lemma {:induction false} One(ts: seq<Token>, i: nat, t: Token, b: seq<Token>)
    requires Here(ts, i, [t] + b)
    ensures Peek(ts, i) == t && i < |ts| && Here(ts, i + 1, b)
  {
    Split(ts, i, [t], b);
    assert ts[i..i + 1][0] == t;
  }

  /** How far down a token can extend what stands before it; -1 if it cannot at all. */
  function Reach(t: Token): int {
    if t.LParen? || t.Dot? then 7
    else if t.KwIs? || t.KwNot? || t.KwBetween? || t.KwIn? || t.KwLike? || t.KwGlob? then 3
    else if InfixOp(t).Some? then InfixOp(t).value.0
    else -1
  }

  /** The token after the spelling. */
  function After(ts: seq<Token>, i: nat, s: Syn): Token { Peek(ts, i + |Spell(s)|) }

  /** The parser, at the level, reads `s` from `i`. */
  ghost predicate Reads(up: string -> string, ts: seq<Token>, i: nat, s: Syn, level: Level) {
    i <= |ts| && Read(up, ts, i, level) == Done(Meaning(up, s), i + |Spell(s)|)
  }

  lemma {:induction false} ReadBack(up: string -> string, ts: seq<Token>, i: nat, s: Syn, level: Level)
    requires Formed(s) && LevelOf(s) >= level && Here(ts, i, Spell(s)) && Reach(After(ts, i, s)) < level
    ensures Reads(up, ts, i, s, level)
    decreases s, 8 - level, 1
  {
    hide Spell, Meaning, Compare, Primary, Formed, Reach, LevelOf, Read, Chain, Here;
    if level == 0 || level == 1 || level == 4 || level == 5 {
      ChainBack(up, ts, i, s, level);
      Ends(up, ts, i + |Spell(s)|, level, Meaning(up, s));
    } else if LevelOf(s) > level {
      FirstHere(ts, i, s);
      ReachUp(After(ts, i, s), level);
      ReadBack(up, ts, i, s, level + 1);
      if level == 3 {
        ReadCompare(up, ts, i, s);
        CompareNothing(up, ts, i + |Spell(s)|, Meaning(up, s));
      } else {
        ReadUp(up, ts, i, level);
      }
    } else {
      ShapeOf(s);
      if level == 2 {
        NotBack(up, ts, i, s);
      } else if level == 3 {
        CompareBack(up, ts, i, s);
      } else if level == 6 {
        MinusBack(up, ts, i, s);
      } else {
        PrimaryBack(up, ts, i, s);
      }
    }
  }

  lemma {:induction false} ReachUp(t: Token, level: Level)
    requires Reach(t) < level
    ensures Reach(t) < level + 1
  {
  }

  lemma {:induction false} Ends(up: string -> string, ts: seq<Token>, j: nat, level: Level, e: Expr)
    requires Reach(Peek(ts, j)) < level < 6 && j <= |ts|
    ensures Chain(up, ts, j, level, e) == Done(e, j)
  {
    hide Read;
  }

  lemma {:induction false} ReadUp(up: string -> string, ts: seq<Token>, i: nat, level: Level)
    requires i <= |ts| && ((level == 2 && !Peek(ts, i).KwNot?) || (level == 6 && !Peek(ts, i).Minus?))
    ensures Read(up, ts, i, level) == Read(up, ts, i, level + 1)
  {
    hide Primary, Compare, Chain;
  }

  /** A chain is its first operand and then the rest. */
  lemma {:induction false} ReadChain(up: string -> string, ts: seq<Token>, i: nat, s: Syn, level: Level)
    requires level in {0, 1, 4, 5} && Reads(up, ts, i, s, level + 1)
    ensures i + |Spell(s)| <= |ts| && Read(up, ts, i, level) == Chain(up, ts, i + |Spell(s)|, level, Meaning(up, s))
  {
    hide Primary, Compare, Chain, Meaning, Spell;
  }

  /** One more operand. */
  lemma {:induction false} ChainStep(up: string -> string, ts: seq<Token>, j: nat, s: Syn, level: Level, e: Expr)
    requires j < |ts| && level < 6 && OpAt(Peek(ts, j), level).Some? && Reads(up, ts, j + 1, s, level + 1)
    ensures j + 1 + |Spell(s)| <= |ts|
    ensures Chain(up, ts, j, level, e) ==
      Chain(up, ts, j + 1 + |Spell(s)|, level, Binary(e, OpAt(Peek(ts, j), level).value, Meaning(up, s)))
  {
    hide Primary, Compare, Read, Meaning, Spell;
  }

  lemma {:induction false} FirstHere(ts: seq<Token>, i: nat, s: Syn)
    requires Formed(s) && Here(ts, i, Spell(s))
    ensures Starts(Peek(ts, i)) && i < |ts|
    ensures LevelOf(s) >= 3 ==> !Peek(ts, i).KwNot?
    ensures LevelOf(s) >= 7 ==> !Peek(ts, i).Minus?
  {
    hide Spell, Formed, LevelOf;
    FirstToken(s);
    assert ts[i..i + |Spell(s)|][0] == ts[i];
  }

  lemma {:induction false} CompareNothing(up: string -> string, ts: seq<Token>, j: nat, e: Expr)
    requires j <= |ts| && Reach(Peek(ts, j)) < 3
    ensures Compare(up, ts, j, e) == Done(e, j)
  {
    hide Read, Items;
  }

  lemma {:induction false} ShapeOf(s: Syn)
    requires Formed(s)
    ensures LevelOf(s) == 2 ==> s.Not1?
    ensures LevelOf(s) == 3 ==> s.Infix? || s.Null1? || s.Range? || s.Member? || s.Match?
    ensures LevelOf(s) == 6 ==> s.Minus1?
    ensures LevelOf(s) == 7 ==> s.Leaf? || s.Dotted? || s.CallStar? || s.Call? || s.CastAs? || s.Paren?
    ensures LevelOf(s) in {0, 1, 4, 5} ==> s.Infix? && InfixOp(s.tok).Some? && InfixOp(s.tok).value.0 == LevelOf(s)
  {
  }

  /** A chain as far as it goes. */
  lemma {:induction false} ChainBack(up: string -> string, ts: seq<Token>, i: nat, s: Syn, level: Level)
    requires level in {0, 1, 4, 5}
    requires Formed(s) && LevelOf(s) >= level && Here(ts, i, Spell(s)) && Reach(After(ts, i, s)) <= level
    ensures i + |Spell(s)| <= |ts| && Read(up, ts, i, level) == Chain(up, ts, i + |Spell(s)|, level, Meaning(up, s))
    decreases s, 8 - level, 0
  {
    hide Spell, Meaning, Compare, Primary, Formed, Reach, LevelOf, Read, Chain, Here;
    if LevelOf(s) > level {
      ReadBack(up, ts, i, s, level + 1);
      ReadChain(up, ts, i, s, level);
    } else {
      ShapeOf(s);
      InfixParts(ts, i, s);
      ChainBack(up, ts, i, s.left, level);
      ReadBack(up, ts, i + |Spell(s.left)| + 1, s.right, level + 1);
      ChainStep(up, ts, i + |Spell(s.left)|, s.right, level, Meaning(up, s.left));
      InfixMeans(up, s);
    }
  }

  lemma {:induction false} InfixMeans(up: string -> string, s: Syn)
    requires s.Infix? && InfixOp(s.tok).Some?
    ensures Meaning(up, s) == Binary(Meaning(up, s.left), InfixOp(s.tok).value.1, Meaning(up, s.right))
  {
  }

  lemma {:induction false} InfixParts(ts: seq<Token>, i: nat, s: Syn)
    requires s.Infix? && Formed(s) && Here(ts, i, Spell(s))
    ensures Formed(s.left) && Formed(s.right) && InfixOp(s.tok).Some? && LevelOf(s) == InfixOp(s.tok).value.0
    ensures LevelOf(s.right) > LevelOf(s)
        && (if LevelOf(s) == 3 then LevelOf(s.left) > 3 else LevelOf(s.left) >= LevelOf(s))
    ensures Here(ts, i, Spell(s.left)) && After(ts, i, s.left) == s.tok && Reach(s.tok) == LevelOf(s)
    ensures Here(ts, i + |Spell(s.left)| + 1, Spell(s.right))
    ensures |Spell(s)| == |Spell(s.left)| + 1 + |Spell(s.right)|
  {
    hide Here;
    var l, r := Spell(s.left), Spell(s.right);
    assert Spell(s) == l + ([s.tok] + r);
    Split(ts, i, l, [s.tok] + r);
    One(ts, i + |l|, s.tok, r);
  }

  lemma {:induction false} NotBack(up: string -> string, ts: seq<Token>, i: nat, s: Syn)
    requires s.Not1? && Formed(s) && Here(ts, i, Spell(s)) && Reach(After(ts, i, s)) < 2
    ensures Reads(up, ts, i, s, 2)
    decreases s, 0, 0
  {
    hide Spell, Here, Read, Meaning;
    AboutNot(up, s);
    One(ts, i, KwNot, Spell(s.inner));
    ReadBack(up, ts, i + 1, s.inner, 3);
    ReadNot(up, ts, i, s.inner);
  }

  lemma {:induction false} AboutNot(up: string -> string, s: Syn)
    requires s.Not1?
    ensures Spell(s) == [KwNot] + Spell(s.inner) && Meaning(up, s) == Unary(OpNot, Meaning(up, s.inner))
  {
  }

  lemma {:induction false} ReadNot(up: string -> string, ts: seq<Token>, i: nat, p: Syn)
    requires i < |ts| && Peek(ts, i) == KwNot && Reads(up, ts, i + 1, p, 3)
    ensures Read(up, ts, i, 2) == Done(Unary(OpNot, Meaning(up, p)), i + 1 + |Spell(p)|)
  {
    hide Spell, Meaning, Primary, Compare, Chain;
  }

  lemma {:induction false} MinusBack(up: string -> string, ts: seq<Token>, i: nat, s: Syn)
    requires s.Minus1? && Formed(s) && Here(ts, i, Spell(s)) && Reach(After(ts, i, s)) < 6
    ensures Reads(up, ts, i, s, 6)
    decreases s, 0, 0
  {
    hide Spell, Here, Read, Meaning;
    AboutMinus(up, s);
    One(ts, i, Minus, Spell(s.inner));
    ReadBack(up, ts, i + 1, s.inner, 7);
    ReadMinus(up, ts, i, s.inner);
  }

  lemma {:induction false} AboutMinus(up: string -> string, s: Syn)
    requires s.Minus1?
    ensures Spell(s) == [Minus] + Spell(s.inner) && Meaning(up, s) == Unary(OpNeg, Meaning(up, s.inner))
  {
  }

  lemma {:induction false} ReadMinus(up: string -> string, ts: seq<Token>, i: nat, p: Syn)
    requires i < |ts| && Peek(ts, i) == Minus && Reads(up, ts, i + 1, p, 7)
    ensures Read(up, ts, i, 6) == Done(Unary(OpNeg, Meaning(up, p)), i + 1 + |Spell(p)|)
  {
    hide Spell, Meaning, Primary, Compare, Chain;
  }

  // ------------------------------------------------------------------
  // Comparisons.
  // ------------------------------------------------------------------

  lemma {:induction false} CompareBack(up: string -> string, ts: seq<Token>, i: nat, s: Syn)
    requires LevelOf(s) == 3 && Formed(s) && Here(ts, i, Spell(s)) && Reach(After(ts, i, s)) < 3
    ensures Reads(up, ts, i, s, 3)
    decreases s, 0, 1
  {
    hide Spell, Meaning, Compare, Primary, Formed, Reach, Read, Here;
    ShapeOf(s);
    match s {
      case Infix(_, _, _) => InfixBack(up, ts, i, s);
      case Null1(_, _) => NullBack(up, ts, i, s);
      case Range(_, _, _, _) => RangeBack(up, ts, i, s);
      case Member(_, _, _, _) => MemberBack(up, ts, i, s);
      case Match(_, _, _, _) => MatchBack(up, ts, i, s);
    }
  }

  /** A comparison is its first operand and then the rest. */
  lemma {:induction false} ReadCompare(up: string -> string, ts: seq<Token>, i: nat, p: Syn)
    requires Reads(up, ts, i, p, 4)
    ensures i + |Spell(p)| <= |ts| && Read(up, ts, i, 3) == Compare(up, ts, i + |Spell(p)|, Meaning(up, p))
  {
    hide Spell, Meaning, Compare;
  }

  lemma {:induction false} InfixBack(up: string -> string, ts: seq<Token>, i: nat, s: Syn)
    requires s.Infix? && LevelOf(s) == 3 && Formed(s) && Here(ts, i, Spell(s)) && Reach(After(ts, i, s)) < 3
    ensures Reads(up, ts, i, s, 3)
    decreases s, 0, 0
  {
    hide Spell, Meaning, Compare, Primary, Formed, Reach, Read, Here;
    InfixParts(ts, i, s);
    ReadBack(up, ts, i, s.left, 4);
    ReadBack(up, ts, i + |Spell(s.left)| + 1, s.right, 4);
    ReadCompare(up, ts, i, s.left);
    CompareInfix(up, ts, i + |Spell(s.left)|, s);
    InfixMeans(up, s);
  }

  lemma {:induction false} NullBack(up: string -> string, ts: seq<Token>, i: nat, s: Syn)
    requires s.Null1? && Formed(s) && Here(ts, i, Spell(s))
    ensures Reads(up, ts, i, s, 3)
    decreases s, 0, 0
  {
    hide Spell, Meaning, Compare, Primary, Formed, Reach, Read, Here;
    FormedNull(s);
    NullParts(ts, i, s);
    ReadBack(up, ts, i, s.inner, 4);
    ReadCompare(up, ts, i, s.inner);
    CompareNull(up, ts, i + |Spell(s.inner)|, s);
  }

  lemma {:induction false} RangeBack(up: string -> string, ts: seq<Token>, i: nat, s: Syn)
    requires s.Range? && Formed(s) && Here(ts, i, Spell(s)) && Reach(After(ts, i, s)) < 3
    ensures Reads(up, ts, i, s, 3)
    decreases s, 0, 0
  {
    hide Spell, Meaning, Compare, Primary, Formed, Reach, Read, Here;
    FormedRange(s);
    RangeParts(ts, i, s);
    ReadBack(up, ts, i, s.inner, 4);
    ReadBack(up, ts, RangeLow(i, s), s.low, 4);
    ReadBack(up, ts, RangeLow(i, s) + |Spell(s.low)| + 1, s.high, 4);
    ReadCompare(up, ts, i, s.inner);
    CompareRange(up, ts, i + |Spell(s.inner)|, s);
  }

  lemma {:induction false} MemberBack(up: string -> string, ts: seq<Token>, i: nat, s: Syn)
    requires s.Member? && Formed(s) && Here(ts, i, Spell(s))
    ensures Reads(up, ts, i, s, 3)
    decreases s, 0, 0
  {
    hide Spell, Meaning, Compare, Primary, Formed, Reach, Read, Here, SpellItems, Items;
    FormedMember(s);
    MemberParts(ts, i, s);
    ReadBack(up, ts, i, s.inner, 4);
    ItemsBack(up, ts, MemberStart(i, s), s.items, s.comma);
    ReadCompare(up, ts, i, s.inner);
    CompareMember(up, ts, i + |Spell(s.inner)|, s);
  }

  lemma {:induction false} MatchBack(up: string -> string, ts: seq<Token>, i: nat, s: Syn)
    requires s.Match? && Formed(s) && Here(ts, i, Spell(s)) && Reach(After(ts, i, s)) < 3
    ensures Reads(up, ts, i, s, 3)
    decreases s, 0, 0
  {
    hide Spell, Meaning, Compare, Primary, Formed, Reach, Read, Here;
    FormedMatch(s);
    MatchParts(ts, i, s);
    ReadBack(up, ts, i, s.inner, 4);
    ReadBack(up, ts, MatchStart(i, s), s.pattern, 4);
    ReadCompare(up, ts, i, s.inner);
    CompareMatch(up, ts, i + |Spell(s.inner)|, s);
  }

  lemma {:induction false} CompareInfix(up: string -> string, ts: seq<Token>, j: nat, s: Syn)
    requires s.Infix? && j < |ts| && Peek(ts, j) == s.tok && OpAt(s.tok, 3).Some? && Reads(up, ts, j + 1, s.right, 4)
    ensures forall e ::
        Compare(up, ts, j, e) == Done(Binary(e, OpAt(s.tok, 3).value, Meaning(up, s.right)), j + 1 + |Spell(s.right)|)
  {
    hide Read, Spell, Meaning;
  }

  lemma {:induction false} FormedNull(s: Syn)
    requires s.Null1? && Formed(s)
    ensures Formed(s.inner) && LevelOf(s.inner) >= 4
  {
  }

  lemma {:induction false} NullParts(ts: seq<Token>, i: nat, s: Syn)
    requires s.Null1? && Here(ts, i, Spell(s))
    ensures Here(ts, i, Spell(s.inner)) && After(ts, i, s.inner) == KwIs && Reach(KwIs) < 4
    ensures |Spell(s)| == |Spell(s.inner)| + (if s.negated then 3 else 2)
    ensures NullTail(ts, i + |Spell(s.inner)|, s.negated)
  {
    hide Here;
    var p := Spell(s.inner);
    var tail := When(s.negated, KwNot) + [KwNull];
    assert Spell(s) == p + ([KwIs] + tail);
    Split(ts, i, p, [KwIs] + tail);
    One(ts, i + |p|, KwIs, tail);
    if s.negated {
      assert tail == [KwNot] + [KwNull];
      One(ts, i + |p| + 1, KwNot, [KwNull]);
      assert [KwNull] == [KwNull] + [];
      One(ts, i + |p| + 2, KwNull, []);
    } else {
      assert tail == [KwNull] + [];
      One(ts, i + |p| + 1, KwNull, []);
    }
  }

  ghost predicate NullTail(ts: seq<Token>, j: nat, negated: bool) {
    && Peek(ts, j).KwIs? && (if negated then Peek(ts, j + 1).KwNot? && Peek(ts, j + 2).KwNull?
        else Peek(ts, j + 1).KwNull?)
  }

  lemma {:induction false} CompareNull(up: string -> string, ts: seq<Token>, j: nat, s: Syn)
    requires s.Null1? && j <= |ts| && NullTail(ts, j, s.negated)
    ensures Compare(up, ts, j, Meaning(up, s.inner)) == Done(Meaning(up, s), j + (if s.negated then 3 else 2))
  {
    hide Read, Spell;
  }

  /** [NOT] and the keyword of the comparison. */
  ghost predicate KeywordTail(ts: seq<Token>, j: nat, negated: bool, t: Token) {
    if negated then Peek(ts, j).KwNot? && Peek(ts, j + 1) == t && j + 1 < |ts| else Peek(ts, j) == t && j < |ts|
  }

  function Width(negated: bool): nat { if negated then 2 else 1 }

  lemma {:induction false} KeywordParts(ts: seq<Token>, j: nat, negated: bool, t: Token, rest: seq<Token>)
    requires Here(ts, j, When(negated, KwNot) + ([t] + rest))
    ensures KeywordTail(ts, j, negated, t) && Here(ts, j + Width(negated), rest)
    ensures j < |ts| && Peek(ts, j) == (if negated then KwNot else t)
  {
    hide Here;
    if negated {
      One(ts, j, KwNot, [t] + rest);
      One(ts, j + 1, t, rest);
    } else {
      assert When(negated, KwNot) + ([t] + rest) == [t] + rest;
      One(ts, j, t, rest);
    }
  }

  lemma {:induction false} FormedRange(s: Syn)
    requires s.Range? && Formed(s)
    ensures Formed(s.inner) && LevelOf(s.inner) >= 4 && Formed(s.low) && LevelOf(s.low) >= 4 && Formed(s.high)
        && LevelOf(s.high) >= 4
  {
  }

  function RangeLow(i: nat, s: Syn): nat
    requires s.Range?
  {
    i + |Spell(s.inner)| + Width(s.negated)
  }

  lemma {:induction false} RangeParts(ts: seq<Token>, i: nat, s: Syn)
    requires s.Range? && Here(ts, i, Spell(s))
    ensures Here(ts, i, Spell(s.inner)) && Reach(After(ts, i, s.inner)) < 4
    ensures KeywordTail(ts, i + |Spell(s.inner)|, s.negated, KwBetween)
    ensures Here(ts, RangeLow(i, s), Spell(s.low)) && After(ts, RangeLow(i, s), s.low) == KwAnd && Reach(KwAnd) < 4
    ensures RangeLow(i, s) + |Spell(s.low)| < |ts|
    ensures Here(ts, RangeLow(i, s) + |Spell(s.low)| + 1, Spell(s.high))
    ensures i + |Spell(s)| == RangeLow(i, s) + |Spell(s.low)| + 1 + |Spell(s.high)|
  {
    hide Spell, Here;
    var p, l, h := Spell(s.inner), Spell(s.low), Spell(s.high);
    var rest := l + ([KwAnd] + h);
    SpellRange(s.inner, s.low, s.high, s.negated);
    Split(ts, i, p, When(s.negated, KwNot) + ([KwBetween] + rest));
    KeywordParts(ts, i + |p|, s.negated, KwBetween, rest);
    Split(ts, RangeLow(i, s), l, [KwAnd] + h);
    One(ts, RangeLow(i, s) + |l|, KwAnd, h);
  }

  lemma {:induction false} CompareRange(up: string -> string, ts: seq<Token>, j: nat, s: Syn)
    requires s.Range? && KeywordTail(ts, j, s.negated, KwBetween)
    requires Reads(up, ts, j + Width(s.negated), s.low, 4) && Peek(ts, j + Width(s.negated) + |Spell(s.low)|).KwAnd?
    requires Reads(up, ts, j + Width(s.negated) + |Spell(s.low)| + 1, s.high, 4)
    ensures Compare(up, ts, j, Meaning(up, s.inner)) ==
      Done(Meaning(up, s), j + Width(s.negated) + |Spell(s.low)| + 1 + |Spell(s.high)|)
  {
    hide Read, Spell;
  }

  lemma {:induction false} FormedMatch(s: Syn)
    requires s.Match? && Formed(s)
    ensures Formed(s.inner) && LevelOf(s.inner) >= 4 && Formed(s.pattern) && LevelOf(s.pattern) >= 4
  {
  }

  function MatchStart(i: nat, s: Syn): nat
    requires s.Match?
  {
    i + |Spell(s.inner)| + Width(s.negated)
  }

  function MatchWord(s: Syn): Token
    requires s.Match?
  {
    if s.glob then KwGlob else KwLike
  }

  lemma {:induction false} MatchParts(ts: seq<Token>, i: nat, s: Syn)
    requires s.Match? && Here(ts, i, Spell(s))
    ensures Here(ts, i, Spell(s.inner)) && Reach(After(ts, i, s.inner)) < 4
    ensures KeywordTail(ts, i + |Spell(s.inner)|, s.negated, MatchWord(s))
    ensures Here(ts, MatchStart(i, s), Spell(s.pattern))
    ensures i + |Spell(s)| == MatchStart(i, s) + |Spell(s.pattern)|
  {
    hide Here;
    var p, q := Spell(s.inner), Spell(s.pattern);
    assert Spell(s) == p + (When(s.negated, KwNot) + ([MatchWord(s)] + q));
    Split(ts, i, p, When(s.negated, KwNot) + ([MatchWord(s)] + q));
    KeywordParts(ts, i + |p|, s.negated, MatchWord(s), q);
  }

  lemma {:induction false} CompareMatch(up: string -> string, ts: seq<Token>, j: nat, s: Syn)
    requires s.Match? && KeywordTail(ts, j, s.negated, MatchWord(s))
        && Reads(up, ts, j + Width(s.negated), s.pattern, 4)
    ensures Compare(up, ts, j, Meaning(up, s.inner)) == Done(Meaning(up, s), j + Width(s.negated) + |Spell(s.pattern)|)
  {
    hide Read, Spell;
  }

  lemma {:induction false} FormedMember(s: Syn)
    requires s.Member? && Formed(s)
    ensures Formed(s.inner) && LevelOf(s.inner) >= 4 && s.items != [] && forall i ::
        0 <= i < |s.items| ==> Formed(s.items[i])
  {
  }

  function MemberStart(i: nat, s: Syn): nat
    requires s.Member?
  {
    i + |Spell(s.inner)| + Width(s.negated) + 1
  }

  lemma {:induction false} MemberParts(ts: seq<Token>, i: nat, s: Syn)
    requires s.Member? && Here(ts, i, Spell(s))
    ensures Here(ts, i, Spell(s.inner)) && Reach(After(ts, i, s.inner)) < 4
    ensures KeywordTail(ts, i + |Spell(s.inner)|, s.negated, KwIn) && Peek(ts, MemberStart(i, s) - 1).LParen?
    ensures Here(ts, MemberStart(i, s), SpellItems(s.items, s.comma))
    ensures Peek(ts, MemberStart(i, s) + |SpellItems(s.items, s.comma)|).RParen?
    ensures i + |Spell(s)| == MemberStart(i, s) + |SpellItems(s.items, s.comma)| + 1
  {
    hide SpellItems, Spell, Here;
    var p, q := Spell(s.inner), SpellItems(s.items, s.comma);
    var rest := [LParen] + (q + [RParen]);
    SpellMember(s.inner, s.items, s.comma, s.negated);
    Split(ts, i, p, When(s.negated, KwNot) + ([KwIn] + rest));
    KeywordParts(ts, i + |p|, s.negated, KwIn, rest);
    One(ts, MemberStart(i, s) - 1, LParen, q + [RParen]);
    Split(ts, MemberStart(i, s), q, [RParen]);
    assert [RParen] == [RParen] + [];
    One(ts, MemberStart(i, s) + |q|, RParen, []);
  }

  lemma {:induction false} CompareMember(up: string -> string, ts: seq<Token>, j: nat, s: Syn)
    requires s.Member? && KeywordTail(ts, j, s.negated, KwIn) && Peek(ts, j + Width(s.negated)).LParen?
    requires var m := j + Width(s.negated) + 1;
      && m <= |ts| && !Opens(ts, m) && Items(up, ts, m)
          == Done(Meanings(up, s.items), m + |SpellItems(s.items, s.comma)|)
      && Peek(ts, m + |SpellItems(s.items, s.comma)|).RParen?
    ensures Compare(up, ts, j, Meaning(up, s.inner)) ==
      Done(Meaning(up, s), j + Width(s.negated) + 2 + |SpellItems(s.items, s.comma)|)
  {
    hide Read, Spell, SpellItems, Items, Meanings;
  }

  // ------------------------------------------------------------------
  // Lists.
  // ------------------------------------------------------------------

  /** A non-empty list, up to the closing parenthesis. */
  lemma {:induction false} ItemsBack(up: string -> string, ts: seq<Token>, i: nat, items: seq<Syn>, comma: bool)
    requires items != [] && forall k :: 0 <= k < |items| ==> Formed(items[k])
    requires Here(ts, i, SpellItems(items, comma)) && Peek(ts, i + |SpellItems(items, comma)|).RParen?
    ensures i < |ts| && Starts(Peek(ts, i))
    ensures Items(up, ts, i) == Done(Meanings(up, items), i + |SpellItems(items, comma)|)
    decreases items, 9, 1
  {
    hide Spell, Meaning, Formed, Read, Starts, Here;
    var first, more := Spell(items[0]), SpellMore(items[1..], comma);
    assert SpellItems(items, comma) == first + more;
    Split(ts, i, first, more);
    FirstHere(ts, i, items[0]);
    MoreStops(ts, i + |first|, items[1..], comma);
    ReadBack(up, ts, i, items[0], 0);
    MoreBack(up, ts, i + |first|, items[1..], comma, [Meaning(up, items[0])]);
    assert Meanings(up, items) == [Meaning(up, items[0])] + Meanings(up, items[1..]);
  }

  lemma {:induction false} MoreStops(ts: seq<Token>, j: nat, items: seq<Syn>, comma: bool)
    requires Here(ts, j, SpellMore(items, comma)) && Peek(ts, j + |SpellMore(items, comma)|).RParen?
    ensures Reach(Peek(ts, j)) < 0
  {
    hide Spell, Here;
    if items != [] {
      assert SpellMore(items, comma) == [Comma] + (Spell(items[0]) + SpellMore(items[1..], comma));
      One(ts, j, Comma, Spell(items[0]) + SpellMore(items[1..], comma));
    } else if comma {
      assert SpellMore(items, comma) == [Comma] + [];
      One(ts, j, Comma, []);
    }
  }

  lemma {:induction false} MoreBack(up: string -> string, ts: seq<Token>, j: nat, items: seq<Syn>, comma: bool,
      es: seq<Expr>)
    requires forall k :: 0 <= k < |items| ==> Formed(items[k])
    requires Here(ts, j, SpellMore(items, comma)) && Peek(ts, j + |SpellMore(items, comma)|).RParen?
    ensures More(up, ts, j, es) == Done(es + Meanings(up, items), j + |SpellMore(items, comma)|)
    decreases items, 9, 0
  {
    hide Spell, Meaning, Formed, Read, Here, More, Meanings, SpellMore;
    SpellMoreIs(items, comma);
    MeaningsIs(up, items, es);
    if items == [] {
      MoreEnd(up, ts, j, comma, es);
    } else {
      var first, more := Spell(items[0]), SpellMore(items[1..], comma);
      One(ts, j, Comma, first + more);
      Split(ts, j + 1, first, more);
      FirstHere(ts, j + 1, items[0]);
      MoreStops(ts, j + 1 + |first|, items[1..], comma);
      ReadBack(up, ts, j + 1, items[0], 0);
      MoreStep(up, ts, j, items[0], es);
      MoreBack(up, ts, j + 1 + |first|, items[1..], comma, es + [Meaning(up, items[0])]);
    }
  }

  lemma {:induction false} SpellMoreIs(items: seq<Syn>, comma: bool)
    ensures SpellMore(items, comma) ==
      if items == [] then When(comma, Comma) else [Comma] + (Spell(items[0]) + SpellMore(items[1..], comma))
  {
    hide Spell;
  }

  lemma {:induction false} MeaningsIs(up: string -> string, items: seq<Syn>, es: seq<Expr>)
    ensures es + Meanings(up, items) ==
      if items == [] then es else es + [Meaning(up, items[0])] + Meanings(up, items[1..])
  {
    hide Meaning;
  }

  lemma {:induction false} MoreStep(up: string -> string, ts: seq<Token>, j: nat, s: Syn, es: seq<Expr>)
    requires j < |ts| && Peek(ts, j).Comma? && Starts(Peek(ts, j + 1)) && Reads(up, ts, j + 1, s, 0)
    ensures j + 1 + |Spell(s)| <= |ts|
    ensures More(up, ts, j, es) == More(up, ts, j + 1 + |Spell(s)|, es + [Meaning(up, s)])
  {
    hide Read, Spell, Meaning;
  }

  lemma {:induction false} MoreEnd(up: string -> string, ts: seq<Token>, j: nat, comma: bool, es: seq<Expr>)
    requires Here(ts, j, When(comma, Comma)) && Peek(ts, j + |When(comma, Comma)|).RParen?
    ensures More(up, ts, j, es) == Done(es, j + |When(comma, Comma)|)
  {
    hide Read, Here;
    if comma {
      assert When(comma, Comma) == [Comma] + [];
      One(ts, j, Comma, []);
    }
  }

  // ------------------------------------------------------------------
  // Primaries.
  // ------------------------------------------------------------------

  lemma {:induction false} ReadPrimary(up: string -> string, ts: seq<Token>, i: nat)
    requires i <= |ts|
    ensures Read(up, ts, i, 7) == Primary(up, ts, i)
  {
    hide Primary;
  }

  lemma {:induction false} PrimaryBack(up: string -> string, ts: seq<Token>, i: nat, s: Syn)
    requires LevelOf(s) == 7 && Formed(s) && Here(ts, i, Spell(s)) && Reach(After(ts, i, s)) < 7
    ensures Reads(up, ts, i, s, 7)
    decreases s, 0, 0
  {
    hide Spell, Meaning, Primary, Formed, Reach;
    ShapeOf(s);
    match s {
      case Leaf(_) => LeafBack(up, ts, i, s);
      case Dotted(_, _) => DottedBack(up, ts, i, s);
      case CallStar(_, _) => StarBack(up, ts, i, s);
      case Call(_, _, items, comma) =>
        CallParts(ts, i, s);
        if items != [] {
          ItemsBack(up, ts, CallStart(i, s), items, comma);
        }
        ApplyBack(up, ts, i, s);
      case CastAs(p, _) =>
        CastParts(ts, i, s);
        ReadBack(up, ts, i + 2, p, 0);
        CastBack(up, ts, i, s);
      case Paren(p) =>
        ParenParts(ts, i, s);
        ReadBack(up, ts, i + 1, p, 0);
        ParenBack(up, ts, i, s);
    }
  }

  lemma {:induction false} ReadApply(up: string -> string, ts: seq<Token>, i: nat)
    requires Peek(ts, i).Ident? && Peek(ts, i + 1).LParen?
    ensures Read(up, ts, i, 7) == Apply(up, ts, i + 1, Peek(ts, i).name)
  {
    hide Apply;
    ReadPrimary(up, ts, i);
  }

  lemma {:induction false} LeafBack(up: string -> string, ts: seq<Token>, i: nat, s: Syn)
    requires s.Leaf? && Formed(s) && Here(ts, i, Spell(s)) && Reach(After(ts, i, s)) < 7
    ensures Reads(up, ts, i, s, 7)
  {
    hide Here, Read;
    assert Spell(s) == [s.tok] + [];
    One(ts, i, s.tok, []);
    ReadPrimary(up, ts, i);
  }

  lemma {:induction false} DottedBack(up: string -> string, ts: seq<Token>, i: nat, s: Syn)
    requires s.Dotted? && Formed(s) && Here(ts, i, Spell(s))
    ensures Reads(up, ts, i, s, 7)
  {
    hide Here, Read;
    assert Spell(s) == [Ident(s.table)] + ([Dot] + ([s.tok] + []));
    One(ts, i, Ident(s.table), [Dot] + ([s.tok] + []));
    One(ts, i + 1, Dot, [s.tok] + []);
    One(ts, i + 2, s.tok, []);
    ReadPrimary(up, ts, i);
  }

  lemma {:induction false} StarBack(up: string -> string, ts: seq<Token>, i: nat, s: Syn)
    requires s.CallStar? && Here(ts, i, Spell(s))
    ensures Reads(up, ts, i, s, 7)
  {
    hide Primary, Items, Here, Read;
    var d := When(s.distinct, KwDistinct);
    var rest := [Star] + ([RParen] + []);
    assert Spell(s) == [Ident(s.name)] + ([LParen] + (d + rest));
    One(ts, i, Ident(s.name), [LParen] + (d + rest));
    One(ts, i + 1, LParen, d + rest);
    DistinctParts(ts, i + 2, s.distinct, rest);
    One(ts, i + 2 + |d|, Star, [RParen] + []);
    One(ts, i + 3 + |d|, RParen, []);
    ReadApply(up, ts, i);
  }

  lemma {:induction false} DistinctParts(ts: seq<Token>, i: nat, d: bool, rest: seq<Token>)
    requires Here(ts, i, When(d, KwDistinct) + rest)
    ensures Here(ts, i + |When(d, KwDistinct)|, rest)
    ensures d ==> Peek(ts, i).KwDistinct?
  {
    hide Here;
    Split(ts, i, When(d, KwDistinct), rest);
    if d {
      One(ts, i, KwDistinct, rest);
    }
  }

  function CallStart(i: nat, s: Syn): nat
    requires s.Call?
  {
    i + (if s.distinct then 3 else 2)
  }

  lemma {:induction false} CallParts(ts: seq<Token>, i: nat, s: Syn)
    requires s.Call? && Formed(s) && Here(ts, i, Spell(s))
    ensures (forall k :: 0 <= k < |s.items| ==> Formed(s.items[k])) && (s.items == [] ==> !s.comma)
    ensures Peek(ts, i) == Ident(s.name) && Peek(ts, i + 1).LParen? && (s.distinct ==> Peek(ts, i + 2).KwDistinct?)
    ensures Here(ts, CallStart(i, s), SpellItems(s.items, s.comma))
    ensures Peek(ts, CallStart(i, s) + |SpellItems(s.items, s.comma)|).RParen?
    ensures i + |Spell(s)| == CallStart(i, s) + |SpellItems(s.items, s.comma)| + 1
  {
    hide SpellItems, Here;
    var d, q := When(s.distinct, KwDistinct), SpellItems(s.items, s.comma);
    var rest := q + [RParen];
    assert Spell(s) == [Ident(s.name)] + ([LParen] + (d + rest));
    One(ts, i, Ident(s.name), [LParen] + (d + rest));
    One(ts, i + 1, LParen, d + rest);
    DistinctParts(ts, i + 2, s.distinct, rest);
    Split(ts, CallStart(i, s), q, [RParen]);
    assert [RParen] == [RParen] + [];
    One(ts, CallStart(i, s) + |q|, RParen, []);
  }

  lemma {:induction false} ApplyBack(up: string -> string, ts: seq<Token>, i: nat, s: Syn)
    requires s.Call? && Peek(ts, i) == Ident(s.name) && Peek(ts, i + 1).LParen?
        && (s.distinct ==> Peek(ts, i + 2).KwDistinct?)
    requires i + |Spell(s)| == CallStart(i, s) + |SpellItems(s.items, s.comma)| + 1 && CallStart(i, s) <= |ts|
    requires Peek(ts, CallStart(i, s) + |SpellItems(s.items, s.comma)|).RParen?
    requires s.items != [] ==> Starts(Peek(ts, CallStart(i, s)))
    requires s.items != [] ==>
      Items(up, ts, CallStart(i, s)) == Done(Meanings(up, s.items), CallStart(i, s) + |SpellItems(s.items, s.comma)|)
    ensures Reads(up, ts, i, s, 7)
  {
    hide Primary, Spell, Items, Read;
    ReadApply(up, ts, i);
  }

  lemma {:induction false} CastParts(ts: seq<Token>, i: nat, s: Syn)
    requires s.CastAs? && Formed(s) && Here(ts, i, Spell(s))
    ensures Formed(s.inner) && TypeOf(s.tok).Some?
    ensures Peek(ts, i).KwCast? && Peek(ts, i + 1).LParen? && Here(ts, i + 2, Spell(s.inner))
    ensures After(ts, i + 2, s.inner) == KwAs && Reach(KwAs) < 0
    ensures Peek(ts, i + 3 + |Spell(s.inner)|) == s.tok && Peek(ts, i + 4 + |Spell(s.inner)|).RParen?
    ensures |Spell(s)| == |Spell(s.inner)| + 5
  {
    hide Spell, Here;
    var p := Spell(s.inner);
    var rest := [KwAs] + ([s.tok] + [RParen]);
    SpellCast(s.inner, s.tok);
    One(ts, i, KwCast, [LParen] + (p + rest));
    One(ts, i + 1, LParen, p + rest);
    Split(ts, i + 2, p, rest);
    One(ts, i + 2 + |p|, KwAs, [s.tok] + [RParen]);
    One(ts, i + 3 + |p|, s.tok, [RParen]);
    assert [RParen] == [RParen] + [];
    One(ts, i + 4 + |p|, RParen, []);
  }

  lemma {:induction false} CastBack(up: string -> string, ts: seq<Token>, i: nat, s: Syn)
    requires s.CastAs? && TypeOf(s.tok).Some? && Peek(ts, i).KwCast? && Peek(ts, i + 1).LParen?
    requires Reads(up, ts, i + 2, s.inner, 0) && After(ts, i + 2, s.inner) == KwAs
    requires Peek(ts, i + 3 + |Spell(s.inner)|) == s.tok && Peek(ts, i + 4 + |Spell(s.inner)|).RParen?
    requires |Spell(s)| == |Spell(s.inner)| + 5
    ensures Reads(up, ts, i, s, 7)
  {
    hide Spell, Read;
    ReadPrimary(up, ts, i);
  }

  lemma {:induction false} ParenParts(ts: seq<Token>, i: nat, s: Syn)
    requires s.Paren? && Formed(s) && Here(ts, i, Spell(s))
    ensures Formed(s.inner) && Peek(ts, i).LParen? && Here(ts, i + 1, Spell(s.inner)) && Starts(Peek(ts, i + 1))
    ensures After(ts, i + 1, s.inner) == RParen && Reach(RParen) < 0 && |Spell(s)| == |Spell(s.inner)| + 2
  {
    hide Spell, Here, Starts;
    var p := Spell(s.inner);
    SpellParen(s.inner);
    One(ts, i, LParen, p + [RParen]);
    Split(ts, i + 1, p, [RParen]);
    assert [RParen] == [RParen] + [];
    One(ts, i + 1 + |p|, RParen, []);
    FirstHere(ts, i + 1, s.inner);
  }

  lemma {:induction false} ParenBack(up: string -> string, ts: seq<Token>, i: nat, s: Syn)
    requires s.Paren? && Peek(ts, i).LParen? && Starts(Peek(ts, i + 1)) && Reads(up, ts, i + 1, s.inner, 0)
    requires After(ts, i + 1, s.inner) == RParen && |Spell(s)| == |Spell(s.inner)| + 2
    ensures Reads(up, ts, i, s, 7)
  {
    hide Spell, Read;
    ReadPrimary(up, ts, i);
  }
}
