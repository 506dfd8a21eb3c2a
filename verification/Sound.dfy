/** Whatever the parser reads, the grammar derives. */
module Sound {
  import opened Keys
  import opened Grammar
  import opened Descent

  /** `s` spells the tokens from `i` to `j`, means `e`, and binds at the level or tighter. */
  ghost predicate Derives(up: string -> string, ts: seq<Token>, i: nat, j: nat, e: Expr, s: Syn, level: Level) {
    i <= j <= |ts| && Formed(s) && LevelOf(s) >= level && Spell(s) == ts[i..j] && Meaning(up, s) == e
  }

  ghost predicate DerivesItems(up: string -> string, ts: seq<Token>, i: nat, j: nat, es: seq<Expr>, items: seq<Syn>,
      comma: bool) {
    && i <= j <= |ts| && items != [] && (forall k :: 0 <= k < |items| ==> Formed(items[k]))
    && SpellItems(items, comma) == ts[i..j] && Meanings(up, items) == es
  }

  ghost predicate DerivesMore(up: string -> string, ts: seq<Token>, i: nat, j: nat, es: seq<Expr>, items: seq<Syn>,
      comma: bool) {
    && i <= j <= |ts| && (forall k :: 0 <= k < |items| ==> Formed(items[k]))
    && SpellMore(items, comma) == ts[i..j] && Meanings(up, items) == es
  }

  lemma {:induction false} Glue(ts: seq<Token>, i: nat, j: nat, k: nat)
    requires i <= j <= k <= |ts|
    ensures ts[i..k] == ts[i..j] + ts[j..k]
  {
  }

  /** A token and what follows it. */
  lemma {:induction false} Front(ts: seq<Token>, i: nat, k: nat)
    requires i < k <= |ts|
    ensures ts[i..k] == [Peek(ts, i)] + ts[i + 1..k]
  {
  }

  lemma {:induction false} Inside(ts: seq<Token>, i: nat)
    requires Peek(ts, i) != Eof
    ensures i < |ts|
  {
  }

  /** What the parser reads from `i` at the level has a derivation. */
  lemma {:induction false} ReadSound(up: string -> string, ts: seq<Token>, i: nat, level: Level) returns (s: Syn)
    requires i <= |ts| && Read(up, ts, i, level).Done?
    ensures Derives(up, ts, i, Read(up, ts, i, level).pos, Read(up, ts, i, level).value, s, level)
    decreases |ts| - i, 8 - level, 0
  {
    hide Primary, Compare, Spell, Meaning, Formed, LevelOf;
    if level == 7 {
      s := PrimarySound(up, ts, i);
    } else if level == 6 {
      if !Peek(ts, i).Minus? {
        s := ReadSound(up, ts, i, 7);
      } else {
        var p := ReadSound(up, ts, i + 1, 7);
        s := Minus1(p);
        BuildMinus(up, ts, i, Read(up, ts, i, level).pos, p);
      }
    } else if level == 3 {
      var p := ReadSound(up, ts, i, 4);
      var l := Read(up, ts, i, 4);
      s := CompareSound(up, ts, i, l.pos, l.value, p);
    } else if level == 2 {
      if !Peek(ts, i).KwNot? {
        s := ReadSound(up, ts, i, 3);
      } else {
        var p := ReadSound(up, ts, i + 1, 3);
        s := Not1(p);
        BuildNot(up, ts, i, Read(up, ts, i, level).pos, p);
      }
    } else {
      var p := ReadSound(up, ts, i, level + 1);
      var l := Read(up, ts, i, level + 1);
      s := ChainSound(up, ts, i, l.pos, level, l.value, p);
    }
  }

  lemma {:induction false} BuildMinus(up: string -> string, ts: seq<Token>, i: nat, j: nat, p: Syn)
    requires Peek(ts, i).Minus? && Derives(up, ts, i + 1, j, Meaning(up, p), p, 7)
    ensures Derives(up, ts, i, j, Unary(OpNeg, Meaning(up, p)), Minus1(p), 6)
  {
    Front(ts, i, j);
  }

  lemma {:induction false} BuildNot(up: string -> string, ts: seq<Token>, i: nat, j: nat, p: Syn)
    requires Peek(ts, i).KwNot? && Derives(up, ts, i + 1, j, Meaning(up, p), p, 3)
    ensures Derives(up, ts, i, j, Unary(OpNot, Meaning(up, p)), Not1(p), 2)
  {
    Front(ts, i, j);
  }

  lemma {:induction false} ChainSound(up: string -> string, ts: seq<Token>, i: nat, j: nat, level: Level, left: Expr,
      p: Syn) returns (s: Syn)
    requires level in {0, 1, 4, 5} && i < j <= |ts|
    requires Derives(up, ts, i, j, left, p, level) && Chain(up, ts, j, level, left).Done?
    ensures Derives(up, ts, i, Chain(up, ts, j, level, left).pos, Chain(up, ts, j, level, left).value, s, level)
    decreases |ts| - j, 8 - level, 1
  {
    hide Read, Derives;
    if OpAt(Peek(ts, j), level).None? {
      s := p;
    } else {
      Inside(ts, j);
      var r := ReadSound(up, ts, j + 1, level + 1);
      var right := Read(up, ts, j + 1, level + 1);
      BuildInfix(up, ts, i, j, right.pos, level, left, p, right.value, r);
      s := ChainSound(up, ts, i, right.pos, level, Binary(left, OpAt(Peek(ts, j), level).value, right.value),
          Infix(p, Peek(ts, j), r));
    }
  }

  lemma {:induction false} BuildInfix(up: string -> string, ts: seq<Token>, i: nat, j: nat, k: nat, level: Level,
      left: Expr, l: Syn, right: Expr, r: Syn)
    requires j < |ts| && OpAt(Peek(ts, j), level).Some? && level < 7
    requires Derives(up, ts, i, j, left, l, if level == 3 then 4 else level)
        && Derives(up, ts, j + 1, k, right, r, level + 1)
    ensures Derives(up, ts, i, k, Binary(left, OpAt(Peek(ts, j), level).value, right), Infix(l, Peek(ts, j), r), level)
  {
    var t := Peek(ts, j);
    assert Spell(Infix(l, t, r)) == Spell(l) + ([t] + Spell(r));
    Front(ts, j, k);
    Glue(ts, i, j, k);
  }

  lemma {:induction false} CompareSound(up: string -> string, ts: seq<Token>, i: nat, j: nat, left: Expr, p: Syn)
      returns (s: Syn)
    requires i < j <= |ts| && Derives(up, ts, i, j, left, p, 4) && Compare(up, ts, j, left).Done?
    ensures Derives(up, ts, i, Compare(up, ts, j, left).pos, Compare(up, ts, j, left).value, s, 3)
    decreases |ts| - j, 8, 2
  {
    hide Read, Items, Derives, DerivesItems;
    var n := Negates(ts, j);
    var k := if n then j + 1 else j;
    var t := Peek(ts, k);
    var end := Compare(up, ts, j, left).pos;
    if Peek(ts, j).KwIs? {
      var not := Peek(ts, j + 1).KwNot?;
      s := Null1(p, not);
      BuildNull(up, ts, i, j, not, left, p);
    } else if t.KwBetween? {
      Inside(ts, k);
      var l := ReadSound(up, ts, k + 1, 4);
      var low := Read(up, ts, k + 1, 4);
      Inside(ts, low.pos);
      var h := ReadSound(up, ts, low.pos + 1, 4);
      s := Range(p, l, h, n);
      BuildRange(up, ts, i, j, n, low.pos, end, left, p, low.value, l, Read(up, ts, low.pos + 1, 4).value, h);
    } else if t.KwIn? {
      Inside(ts, k + 1);
      var items, comma := ItemsSound(up, ts, k + 2);
      s := Member(p, items, comma, n);
      BuildMember(up, ts, i, j, n, end - 1, left, p, Items(up, ts, k + 2).value, items, comma);
    } else if t.KwLike? || t.KwGlob? {
      Inside(ts, k);
      var q := ReadSound(up, ts, k + 1, 4);
      s := Match(p, t.KwGlob?, q, n);
      BuildMatch(up, ts, i, j, n, t.KwGlob?, end, left, p, Read(up, ts, k + 1, 4).value, q);
    } else if OpAt(t, 3).Some? {
      Inside(ts, k);
      var r := ReadSound(up, ts, k + 1, 4);
      s := Infix(p, t, r);
      BuildInfix(up, ts, i, j, end, 3, left, p, Read(up, ts, k + 1, 4).value, r);
    } else {
      s := p;
      Weaken(up, ts, i, j, left, p);
    }
  }

  lemma {:induction false} Weaken(up: string -> string, ts: seq<Token>, i: nat, j: nat, e: Expr, p: Syn)
    requires Derives(up, ts, i, j, e, p, 4)
    ensures Derives(up, ts, i, j, e, p, 3)
  {
    hide Spell, Meaning, Formed, LevelOf;
  }

  lemma {:induction false} BuildNull(up: string -> string, ts: seq<Token>, i: nat, j: nat, n: bool, left: Expr, p: Syn)
    requires Derives(up, ts, i, j, left, p, 4) && Peek(ts, j).KwIs? && (n ==> Peek(ts, j + 1).KwNot?)
    requires Peek(ts, if n then j + 2 else j + 1).KwNull?
    ensures Derives(up, ts, i, if n then j + 3 else j + 2, IsNull(left, n), Null1(p, n), 3)
  {
    var end := if n then j + 3 else j + 2;
    assert Spell(Null1(p, n)) == Spell(p) + ([KwIs] + (When(n, KwNot) + [KwNull]));
    Glue(ts, i, j, end);
    assert ts[j..end] == [KwIs] + (When(n, KwNot) + [KwNull]);
  }

  /** [NOT] and a keyword, then the rest. */
  lemma {:induction false} KeywordSpan(ts: seq<Token>, j: nat, n: bool, end: nat)
    requires (n ==> Peek(ts, j).KwNot?) && j + (if n then 2 else 1) <= end <= |ts|
    ensures ts[j..end] == When(n, KwNot) + ([Peek(ts, if n then j + 1 else j)] + ts[j + (if n then 2 else 1)..end])
  {
    Front(ts, j, end);
    if n {
      Front(ts, j + 1, end);
    }
  }

  lemma {:induction false} BuildRange(up: string -> string, ts: seq<Token>, i: nat, j: nat, n: bool, m: nat, end: nat,
                   left: Expr, p: Syn, low: Expr, l: Syn, high: Expr, h: Syn)
    requires Derives(up, ts, i, j, left, p, 4) && (n ==> Peek(ts, j).KwNot?)
        && Peek(ts, if n then j + 1 else j).KwBetween?
    requires Derives(up, ts, j + (if n then 2 else 1), m, low, l, 4) && Peek(ts, m).KwAnd?
    requires Derives(up, ts, m + 1, end, high, h, 4)
    ensures Derives(up, ts, i, end, Between(left, low, high, n), Range(p, l, h, n), 3)
  {
    hide Spell;
    var a := j + (if n then 2 else 1);
    SpellRange(p, l, h, n);
    Glue(ts, i, j, end);
    KeywordSpan(ts, j, n, end);
    Glue(ts, a, m, end);
    Front(ts, m, end);
  }

  lemma {:induction false} BuildMatch(up: string -> string, ts: seq<Token>, i: nat, j: nat, n: bool, g: bool, end: nat,
                   left: Expr, p: Syn, pattern: Expr, q: Syn)
    requires Derives(up, ts, i, j, left, p, 4) && (n ==> Peek(ts, j).KwNot?)
    requires Peek(ts, if n then j + 1 else j) == (if g then KwGlob else KwLike)
    requires Derives(up, ts, j + (if n then 2 else 1), end, pattern, q, 4)
    ensures Derives(up, ts, i, end, if g then Glob(left, pattern, n) else Like(left, pattern, n), Match(p, g, q, n), 3)
  {
    assert Spell(Match(p, g, q, n)) == Spell(p) + (When(n, KwNot) + ([if g then KwGlob else KwLike] + Spell(q)));
    Glue(ts, i, j, end);
    KeywordSpan(ts, j, n, end);
  }

  lemma {:induction false} BuildMember(up: string -> string, ts: seq<Token>, i: nat, j: nat, n: bool, m: nat,
                    left: Expr, p: Syn, es: seq<Expr>, items: seq<Syn>, comma: bool)
    requires Derives(up, ts, i, j, left, p, 4) && (n ==> Peek(ts, j).KwNot?) && Peek(ts, if n then j + 1 else j).KwIn?
    requires Peek(ts, j + (if n then 2 else 1)).LParen?
    requires DerivesItems(up, ts, j + (if n then 3 else 2), m, es, items, comma) && Peek(ts, m).RParen?
    ensures Derives(up, ts, i, m + 1, InList(left, es, n), Member(p, items, comma, n), 3)
  {
    hide SpellItems, Spell, Formed, Meaning, Meanings, LevelOf;
    AboutMember(up, p, items, comma, n);
    SpellMember(p, items, comma, n);
    MemberSpan(ts, i, j, n, m);
  }

  lemma {:induction false} MemberSpan(ts: seq<Token>, i: nat, j: nat, n: bool, m: nat)
    requires i <= j && j + (if n then 3 else 2) <= m && (n ==> Peek(ts, j).KwNot?)
        && Peek(ts, if n then j + 1 else j).KwIn?
    requires Peek(ts, j + (if n then 2 else 1)).LParen? && Peek(ts, m).RParen?
    ensures m < |ts|
    ensures ts[i..m + 1] ==
      ts[i..j] + (When(n, KwNot) + ([KwIn] + ([LParen] + (ts[j + (if n then 3 else 2)..m] + [RParen]))))
  {
    Inside(ts, m);
    Glue(ts, i, j, m + 1);
    KeywordSpan(ts, j, n, m + 1);
    Front(ts, j + (if n then 2 else 1), m + 1);
    Closed(ts, j + (if n then 3 else 2), m);
  }

  lemma {:induction false} AboutMember(up: string -> string, p: Syn, items: seq<Syn>, comma: bool, n: bool)
    requires Formed(p) && LevelOf(p) >= 4 && items != [] && forall i :: 0 <= i < |items| ==> Formed(items[i])
    ensures Formed(Member(p, items, comma, n)) && LevelOf(Member(p, items, comma, n)) == 3
    ensures Meaning(up, Member(p, items, comma, n)) == InList(Meaning(up, p), Meanings(up, items), n)
  {
  }

  lemma {:induction false} Closed(ts: seq<Token>, k: nat, m: nat)
    requires k <= m && Peek(ts, m).RParen?
    ensures m < |ts| && ts[k..m + 1] == ts[k..m] + [RParen]
  {
  }

  lemma {:induction false} PrimarySound(up: string -> string, ts: seq<Token>, i: nat) returns (s: Syn)
    requires i <= |ts| && Primary(up, ts, i).Done?
    ensures Derives(up, ts, i, Primary(up, ts, i).pos, Primary(up, ts, i).value, s, 7)
    decreases |ts| - i, 0, 0
  {
    hide Read, Derives, Apply;
    var t := Peek(ts, i);
    if t.Ident? && Peek(ts, i + 1).LParen? {
      s := ApplySound(up, ts, i + 1, t.name);
    } else if t.Ident? && Peek(ts, i + 1).Dot? {
      s := Dotted(t.name, Peek(ts, i + 2));
      BuildDotted(up, ts, i);
    } else if LitOf(t).Some? {
      s := Leaf(t);
      BuildLeaf(up, ts, i);
    } else if t.LParen? {
      var p := ReadSound(up, ts, i + 1, 0);
      s := Paren(p);
      BuildParen(up, ts, i, Read(up, ts, i + 1, 0).pos, Read(up, ts, i + 1, 0).value, p);
    } else {
      Inside(ts, i + 1);
      var p := ReadSound(up, ts, i + 2, 0);
      var e := Read(up, ts, i + 2, 0);
      s := CastAs(p, Peek(ts, e.pos + 1));
      BuildCast(up, ts, i, e.pos, e.value, p);
    }
  }

  lemma {:induction false} BuildLeaf(up: string -> string, ts: seq<Token>, i: nat)
    requires LitOf(Peek(ts, i)).Some?
    ensures Derives(up, ts, i, i + 1, LitOf(Peek(ts, i)).value, Leaf(Peek(ts, i)), 7)
  {
    Inside(ts, i);
    assert ts[i..i + 1] == [Peek(ts, i)];
  }

  lemma {:induction false} BuildDotted(up: string -> string, ts: seq<Token>, i: nat)
    requires Peek(ts, i).Ident? && Peek(ts, i + 1).Dot? && IdentOf(Peek(ts, i + 2)).Some?
    ensures Derives(up, ts, i, i + 3, Column(Some(Peek(ts, i).name), IdentOf(Peek(ts, i + 2)).value),
                    Dotted(Peek(ts, i).name, Peek(ts, i + 2)), 7)
  {
    Inside(ts, i + 2);
    assert ts[i..i + 3] == [Peek(ts, i), Dot, Peek(ts, i + 2)];
  }

  lemma {:induction false} BuildParen(up: string -> string, ts: seq<Token>, i: nat, j: nat, e: Expr, p: Syn)
    requires Peek(ts, i).LParen? && Derives(up, ts, i + 1, j, e, p, 0) && Peek(ts, j).RParen?
    ensures Derives(up, ts, i, j + 1, e, Paren(p), 7)
  {
    hide Spell;
    SpellParen(p);
    Front(ts, i, j + 1);
    Glue(ts, i + 1, j, j + 1);
    assert ts[j..j + 1] == [RParen];
  }

  lemma {:induction false} BuildCast(up: string -> string, ts: seq<Token>, i: nat, j: nat, e: Expr, p: Syn)
    requires Peek(ts, i).KwCast? && Peek(ts, i + 1).LParen? && Derives(up, ts, i + 2, j, e, p, 0)
    requires Peek(ts, j).KwAs? && TypeOf(Peek(ts, j + 1)).Some? && Peek(ts, j + 2).RParen?
    ensures Derives(up, ts, i, j + 3, Cast(e, TypeOf(Peek(ts, j + 1)).value), CastAs(p, Peek(ts, j + 1)), 7)
  {
    hide Spell;
    var t := Peek(ts, j + 1);
    Inside(ts, j + 2);
    SpellCast(p, t);
    Front(ts, i, j + 3);
    Front(ts, i + 1, j + 3);
    Glue(ts, i + 2, j, j + 3);
    assert ts[j..j + 3] == [KwAs] + ([t] + [RParen]);
  }

  lemma {:induction false} ApplySound(up: string -> string, ts: seq<Token>, i: nat, name: string) returns (s: Syn)
    requires 0 < i < |ts| && Peek(ts, i - 1) == Ident(name) && Peek(ts, i).LParen? && Apply(up, ts, i, name).Done?
    ensures Derives(up, ts, i - 1, Apply(up, ts, i, name).pos, Apply(up, ts, i, name).value, s, 7)
    decreases |ts| - i, 9, 0
  {
    hide Items, Derives, DerivesItems;
    var d := Peek(ts, i + 1).KwDistinct?;
    var k := if d then i + 2 else i + 1;
    var end := Apply(up, ts, i, name).pos;
    if Peek(ts, k).Star? {
      s := CallStar(name, d);
      BuildStar(up, ts, i - 1, d);
    } else if Peek(ts, k).RParen? {
      s := Call(name, d, [], false);
      BuildCall(up, ts, i - 1, d, k, [], [], false);
    } else {
      ApplyInside(ts, i, d, k);
      var items, comma := ItemsSound(up, ts, k);
      s := Call(name, d, items, comma);
      BuildCall(up, ts, i - 1, d, end - 1, Items(up, ts, k).value, items, comma);
    }
  }

  lemma {:induction false} ApplyInside(ts: seq<Token>, i: nat, d: bool, k: nat)
    requires i < |ts| && d == Peek(ts, i + 1).KwDistinct? && k == (if d then i + 2 else i + 1)
    ensures k <= |ts|
  {
  }

  lemma {:induction false} CallSpan(ts: seq<Token>, i: nat, d: bool, end: nat)
    requires i + (if d then 3 else 2) <= end <= |ts| && (d ==> Peek(ts, i + 2).KwDistinct?)
    ensures ts[i..end] == [Peek(ts, i)]
        + ([Peek(ts, i + 1)] + (When(d, KwDistinct) + ts[i + (if d then 3 else 2)..end]))
  {
    Front(ts, i, end);
    Front(ts, i + 1, end);
    if d {
      Front(ts, i + 2, end);
    }
  }

  lemma {:induction false} BuildStar(up: string -> string, ts: seq<Token>, i: nat, d: bool)
    requires Peek(ts, i).Ident? && Peek(ts, i + 1).LParen? && (d ==> Peek(ts, i + 2).KwDistinct?)
    requires var k := i + (if d then 3 else 2); Peek(ts, k).Star? && Peek(ts, k + 1).RParen?
    ensures Derives(up, ts, i, i + (if d then 5 else 4), Function(up(Peek(ts, i).name), [Column(None, "*")], d),
                    CallStar(Peek(ts, i).name, d), 7)
  {
    var k := i + (if d then 3 else 2);
    Inside(ts, k + 1);
    assert Spell(CallStar(Peek(ts, i).name, d)) == [Peek(ts, i)] + ([LParen] + (When(d, KwDistinct) + [Star, RParen]));
    CallSpan(ts, i, d, k + 2);
    assert ts[k..k + 2] == [Star, RParen];
  }

  lemma {:induction false} BuildCall(up: string -> string, ts: seq<Token>, i: nat, d: bool, m: nat, es: seq<Expr>,
      items: seq<Syn>, comma: bool)
    requires Peek(ts, i).Ident? && Peek(ts, i + 1).LParen? && (d ==> Peek(ts, i + 2).KwDistinct?) && Peek(ts, m).RParen?
    requires if items == [] then m == i + (if d then 3 else 2) && es == [] && !comma
             else DerivesItems(up, ts, i + (if d then 3 else 2), m, es, items, comma)
    ensures Derives(up, ts, i, m + 1, Function(up(Peek(ts, i).name), es, d), Call(Peek(ts, i).name, d, items, comma), 7)
  {
    hide Spell, SpellItems, Formed;
    var k := i + (if d then 3 else 2);
    Inside(ts, m);
    FormedCall(Peek(ts, i).name, d, items, comma);
    ItemsSpan(up, ts, k, m, es, items, comma);
    Closed(ts, k, m);
    SpellCall(Peek(ts, i).name, d, items, comma);
    CallSpan(ts, i, d, m + 1);
  }

  lemma {:induction false} FormedCall(name: string, d: bool, items: seq<Syn>, comma: bool)
    ensures Formed(Call(name, d, items, comma)) <==>
      (items == [] ==> !comma) && forall i :: 0 <= i < |items| ==> Formed(items[i])
    ensures LevelOf(Call(name, d, items, comma)) == 7
  {
  }

  lemma {:induction false} SpellCall(name: string, d: bool, items: seq<Syn>, comma: bool)
    ensures Spell(Call(name, d, items, comma)) ==
      [Ident(name)] + ([LParen] + (When(d, KwDistinct) + (SpellItems(items, comma) + [RParen])))
  {
    hide SpellItems;
  }

  lemma {:induction false} ItemsSpan(up: string -> string, ts: seq<Token>, k: nat, m: nat, es: seq<Expr>,
      items: seq<Syn>, comma: bool)
    requires m <= |ts| && if items == [] then m == k && es == [] && !comma
        else DerivesItems(up, ts, k, m, es, items, comma)
    ensures k <= m && SpellItems(items, comma) == ts[k..m]
  {
  }

  lemma {:induction false} ItemsSound(up: string -> string, ts: seq<Token>, i: nat)
      returns (items: seq<Syn>, comma: bool)
    requires i <= |ts| && Items(up, ts, i).Done?
    ensures items != [] && DerivesItems(up, ts, i, Items(up, ts, i).pos, Items(up, ts, i).value, items, comma)
    decreases |ts| - i, 9, 0
  {
    hide Read, More, Derives, DerivesMore, DerivesItems;
    var e := Read(up, ts, i, 0);
    var s := ReadSound(up, ts, i, 0);
    var es: seq<Expr>, more: seq<Syn>;
    es, more, comma := MoreSound(up, ts, e.pos, [e.value]);
    items := [s] + more;
    BuildItems(up, ts, i, e.pos, Items(up, ts, i).pos, e.value, s, es, more, comma);
  }

  lemma {:induction false} BuildItems(up: string -> string, ts: seq<Token>, i: nat, j: nat, k: nat, e: Expr, s: Syn,
      es: seq<Expr>, more: seq<Syn>, comma: bool)
    requires Derives(up, ts, i, j, e, s, 0) && DerivesMore(up, ts, j, k, es, more, comma)
    ensures DerivesItems(up, ts, i, k, [e] + es, [s] + more, comma)
  {
    hide Spell, Meaning, Formed, LevelOf, SpellMore;
    assert ([s] + more)[1..] == more;
    Glue(ts, i, j, k);
  }

  /** The rest of a list adds `es`, which `items` derive. */
  lemma {:induction false} MoreSound(up: string -> string, ts: seq<Token>, j: nat, acc: seq<Expr>)
      returns (es: seq<Expr>, items: seq<Syn>, comma: bool)
    requires j <= |ts| && More(up, ts, j, acc).Done?
    ensures More(up, ts, j, acc).value == acc + es
    ensures DerivesMore(up, ts, j, More(up, ts, j, acc).pos, es, items, comma)
    decreases |ts| - j, 9, 1
  {
    hide Read, Derives, DerivesMore;
    if !Peek(ts, j).Comma? {
      es, items, comma := [], [], false;
      BuildEnd(up, ts, j, false);
      assert acc + [] == acc;
    } else if Peek(ts, j + 1).RParen? {
      es, items, comma := [], [], true;
      BuildEnd(up, ts, j, true);
      assert acc + [] == acc;
    } else {
      Inside(ts, j);
      var e := Read(up, ts, j + 1, 0);
      var s := ReadSound(up, ts, j + 1, 0);
      es, items, comma := MoreSound(up, ts, e.pos, acc + [e.value]);
      BuildMore(up, ts, j, e.pos, More(up, ts, j, acc).pos, e.value, s, es, items, comma);
      assert acc + ([e.value] + es) == acc + [e.value] + es;
      es, items := [e.value] + es, [s] + items;
    }
  }

  lemma {:induction false} BuildEnd(up: string -> string, ts: seq<Token>, j: nat, comma: bool)
    requires j <= |ts| && (comma ==> Peek(ts, j).Comma?)
    ensures DerivesMore(up, ts, j, if comma then j + 1 else j, [], [], comma)
  {
    if comma {
      Inside(ts, j);
      assert ts[j..j + 1] == [Comma];
    }
  }

  lemma {:induction false} BuildMore(up: string -> string, ts: seq<Token>, j: nat, m: nat, k: nat, e: Expr, s: Syn,
      es: seq<Expr>, more: seq<Syn>, comma: bool)
    requires Peek(ts, j).Comma? && Derives(up, ts, j + 1, m, e, s, 0) && DerivesMore(up, ts, m, k, es, more, comma)
    ensures DerivesMore(up, ts, j, k, [e] + es, [s] + more, comma)
  {
    hide Spell, Meaning, Formed, LevelOf;
    assert ([s] + more)[1..] == more;
    assert SpellMore([s] + more, comma) == [Comma] + (Spell(s) + SpellMore(more, comma));
    Inside(ts, j);
    Front(ts, j, k);
    Glue(ts, j + 1, m, k);
  }
}
