/** The expression parser as a function of the tokens and the position (src/parser/parser.rs), and
    its agreement with the grammar in both directions. */
module Descent {
  import opened Keys
  import opened Grammar

  /** `Subquery` is where the parser would go on to read a SELECT, which is outside this model. */
  datatype Outcome<+T> = Done(value: T, pos: nat) | Fail | Subquery

  function Peek(ts: seq<Token>, i: nat): Token {
    if i < |ts| then ts[i] else Eof
  }

  predicate Opens(ts: seq<Token>, i: nat) {
    Peek(ts, i).KwSelect? || Peek(ts, i).KwWith?
  }

  /** An expression of the level or above, read from position `i`. */
  function Read(up: string -> string, ts: seq<Token>, i: nat, level: Level): (r: Outcome<Expr>)
    requires i <= |ts|
    ensures r.Done? ==> i < r.pos <= |ts|
    decreases |ts| - i, 8 - level, 0
  {
    if level == 7 then Primary(up, ts, i)
    else if level == 6 then
      if !Peek(ts, i).Minus? then Read(up, ts, i, 7)
      else
        var e := Read(up, ts, i + 1, 7);
        if e.Done? then Done(Unary(OpNeg, e.value), e.pos) else e
    else if level == 3 then
      var l := Read(up, ts, i, 4);
      if l.Done? then Compare(up, ts, l.pos, l.value) else l
    else if level == 2 then
      if !Peek(ts, i).KwNot? then Read(up, ts, i, 3)
      else
        var e := Read(up, ts, i + 1, 3);
        if e.Done? then Done(Unary(OpNot, e.value), e.pos) else e
    else
      var l := Read(up, ts, i, level + 1);
      if l.Done? then Chain(up, ts, l.pos, level, l.value) else l
  }

  /** More operands of a left-leaning chain. */
  function Chain(up: string -> string, ts: seq<Token>, j: nat, level: Level, left: Expr): (r: Outcome<Expr>)
    requires j <= |ts| && level < 6
    ensures r.Done? ==> j <= r.pos <= |ts|
    decreases |ts| - j, 8 - level, 1
  {
    var op := OpAt(Peek(ts, j), level);
    if op.None? then Done(left, j)
    else
      var right := Read(up, ts, j + 1, level + 1);
      if right.Done? then Chain(up, ts, right.pos, level, Binary(left, op.value, right.value)) else right
  }

  /** NOT before BETWEEN, IN, LIKE or GLOB. */
  predicate Negates(ts: seq<Token>, j: nat) {
    Peek(ts, j).KwNot? && var t := Peek(ts, j + 1); t.KwBetween? || t.KwIn? || t.KwLike? || t.KwGlob?
  }

  /** What may follow the first operand of a comparison. */
  function Compare(up: string -> string, ts: seq<Token>, j: nat, left: Expr): (r: Outcome<Expr>)
    requires j <= |ts|
    ensures r.Done? ==> j <= r.pos <= |ts|
    decreases |ts| - j, 8, 2
  {
    var n := Negates(ts, j);
    var k := if n then j + 1 else j;
    var t := Peek(ts, k);
    if Peek(ts, j).KwIs? then
      var not := Peek(ts, j + 1).KwNot?;
      var m := if not then j + 2 else j + 1;
      if Peek(ts, m).KwNull? then Done(IsNull(left, not), m + 1) else Fail
    else if t.KwBetween? then RangeOf(up, ts, k + 1, left, n)
    else if t.KwIn? then MemberOf(up, ts, k + 1, left, n)
    else if t.KwLike? || t.KwGlob? then
      var p := Read(up, ts, k + 1, 4);
      if p.Done? then Done(if t.KwGlob? then Glob(left, p.value, n) else Like(left, p.value, n), p.pos) else p
    else if OpAt(t, 3).Some? then
      var right := Read(up, ts, k + 1, 4);
      if right.Done? then Done(Binary(left, OpAt(t, 3).value, right.value), right.pos) else right
    else Done(left, j)
  }

  /** After BETWEEN. */
  function RangeOf(up: string -> string, ts: seq<Token>, j: nat, left: Expr, n: bool): (r: Outcome<Expr>)
    requires j <= |ts|
    ensures r.Done? ==> j < r.pos <= |ts|
    decreases |ts| - j, 8, 1
  {
    var low := Read(up, ts, j, 4);
    if !low.Done? then low
    else if !Peek(ts, low.pos).KwAnd? then Fail
    else
      var high := Read(up, ts, low.pos + 1, 4);
      if high.Done? then Done(Between(left, low.value, high.value, n), high.pos) else high
  }

  /** After IN. */
  function MemberOf(up: string -> string, ts: seq<Token>, j: nat, left: Expr, n: bool): (r: Outcome<Expr>)
    requires j <= |ts|
    ensures r.Done? ==> j < r.pos <= |ts|
    decreases |ts| - j, 8, 1
  {
    if !Peek(ts, j).LParen? then Fail
    else if Opens(ts, j + 1) then Subquery
    else
      var es := Items(up, ts, j + 1);
      if es.Done? then
        if Peek(ts, es.pos).RParen? then Done(InList(left, es.value, n), es.pos + 1) else Fail
      else if es.Fail? then Fail else Subquery
  }

  function Primary(up: string -> string, ts: seq<Token>, i: nat): (r: Outcome<Expr>)
    requires i <= |ts|
    ensures r.Done? ==> i < r.pos <= |ts|
    decreases |ts| - i, 0, 0
  {
    var t := Peek(ts, i);
    if t.Ident? && Peek(ts, i + 1).LParen? then Apply(up, ts, i + 1, t.name)
    else if t.Ident? && Peek(ts, i + 1).Dot? then
      var col := IdentOf(Peek(ts, i + 2));
      if col.Some? then Done(Column(Some(t.name), col.value), i + 3) else Fail
    else if LitOf(t).Some? then Done(LitOf(t).value, i + 1)
    else if t.LParen? then ParenOf(up, ts, i + 1)
    else if t.KwExists? then
      if Peek(ts, i + 1).LParen? then Subquery else Fail
    else if t.KwCast? then CastOf(up, ts, i + 1)
    else Fail
  }

  /** After an opening parenthesis. */
  function ParenOf(up: string -> string, ts: seq<Token>, j: nat): (r: Outcome<Expr>)
    requires j <= |ts|
    ensures r.Done? ==> j < r.pos <= |ts|
    decreases |ts| - j, 9, 0
  {
    if Opens(ts, j) then Subquery
    else
      var e := Read(up, ts, j, 0);
      if e.Done? then
        if Peek(ts, e.pos).RParen? then Done(e.value, e.pos + 1) else Fail
      else e
  }

  /** After CAST. */
  function CastOf(up: string -> string, ts: seq<Token>, j: nat): (r: Outcome<Expr>)
    requires j <= |ts|
    ensures r.Done? ==> j < r.pos <= |ts|
    decreases |ts| - j, 9, 0
  {
    if !Peek(ts, j).LParen? then Fail
    else
      var e := Read(up, ts, j + 1, 0);
      if !e.Done? then e
      else if !Peek(ts, e.pos).KwAs? then Fail
      else
        var ty := TypeOf(Peek(ts, e.pos + 1));
        if ty.Some? && Peek(ts, e.pos + 2).RParen? then Done(Cast(e.value, ty.value), e.pos + 3) else Fail
  }

  /** The arguments of a function, from its opening parenthesis. */
  function Apply(up: string -> string, ts: seq<Token>, i: nat, name: string): (r: Outcome<Expr>)
    requires i < |ts|
    ensures r.Done? ==> i < r.pos <= |ts|
    decreases |ts| - i, 9, 0
  {
    var d := Peek(ts, i + 1).KwDistinct?;
    var k := if d then i + 2 else i + 1;
    var es := Args(up, ts, k);
    if es.Done? then
      if Peek(ts, es.pos).RParen? then Done(Function(up(name), es.value, d), es.pos + 1) else Fail
    else if es.Fail? then Fail else Subquery
  }

  function Args(up: string -> string, ts: seq<Token>, k: nat): (r: Outcome<seq<Expr>>)
    requires k <= |ts|
    ensures r.Done? ==> k <= r.pos <= |ts|
    decreases |ts| - k, 9, 1
  {
    if Peek(ts, k).Star? then Done([Column(None, "*")], k + 1)
    else if Peek(ts, k).RParen? then Done([], k)
    else Items(up, ts, k)
  }

  function Items(up: string -> string, ts: seq<Token>, i: nat): (r: Outcome<seq<Expr>>)
    requires i <= |ts|
    ensures r.Done? ==> i < r.pos <= |ts|
    decreases |ts| - i, 9, 0
  {
    var e := Read(up, ts, i, 0);
    if e.Done? then More(up, ts, e.pos, [e.value]) else if e.Fail? then Fail else Subquery
  }

  function More(up: string -> string, ts: seq<Token>, j: nat, es: seq<Expr>): (r: Outcome<seq<Expr>>)
    requires j <= |ts|
    ensures r.Done? ==> j <= r.pos <= |ts|
    decreases |ts| - j, 9, 1
  {
    if !Peek(ts, j).Comma? then Done(es, j)
    else if Peek(ts, j + 1).RParen? then Done(es, j + 1)
    else
      var e := Read(up, ts, j + 1, 0);
      if e.Done? then More(up, ts, e.pos, es + [e.value]) else if e.Fail? then Fail else Subquery
  }
}
