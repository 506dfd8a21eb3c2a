/** Match queries: their meaning over the tokens of a row, and how they are read from text
    (src/fts/fts_table.rs). */
module FtsQuery {
  import opened Keys
  import opened Wire
  import opened FtsPostings
  import opened FtsIndex
  import opened Tokenizer

  datatype MatchQuery =
    | Term(term: string)
    | Phrase(terms: seq<string>)
    | And(parts: seq<MatchQuery>)
    | Or(parts: seq<MatchQuery>)
    | ColumnFilter(column: string, query: MatchQuery)

  /** Every term with the column name in front. */
  function PrefixQuery(q: MatchQuery, col: string): MatchQuery {
    match q
    case Term(t) => Term(col + ":" + t)
    case Phrase(ts) => Phrase(seq(|ts|, i requires 0 <= i < |ts| => col + ":" + ts[i]))
    case And(ps) => And(seq(|ps|, i requires 0 <= i < |ps| => PrefixQuery(ps[i], col)))
    case Or(ps) => Or(seq(|ps|, i requires 0 <= i < |ps| => PrefixQuery(ps[i], col)))
    case ColumnFilter(c, p) => ColumnFilter(c, PrefixQuery(p, col))
  }

  // ------------------------------------------------------------------
  // Meaning over labelled words: a row is the sequence of its words, each with its column name.
  // ------------------------------------------------------------------

  datatype Word = Word(column: string, term: string)

  /** Word number `x` is `term`, in the column asked for if any. */
  ghost predicate WordIs(ws: seq<Word>, field: Option<string>, term: string, x: int) {
    0 <= x < |ws| && ws[x].term == term && (field.Some? ==> ws[x].column == field.value)
  }

  ghost predicate WordsAt(ws: seq<Word>, lower: string -> string, field: Option<string>, terms: seq<string>,
      start: nat) {
    forall i :: 0 <= i < |terms| ==> WordIs(ws, field, lower(terms[i]), start + i)
  }

  /** A filter inside a filter asks for the column called inner:outer. */
  function Joined(c: string, field: Option<string>): Option<string> {
    Some(if field.None? then c else c + ":" + field.value)
  }

  /** The naive evaluator: does the row satisfy the query?  The words of a row are one sequence, so
      without a filter a phrase may begin in one column and end in the next, as in the source; see
      `AcrossColumns`. */
  ghost predicate Accepts(ws: seq<Word>, lower: string -> string, field: Option<string>, q: MatchQuery)
    decreases q
  {
    match q
    case Term(t) => exists x :: WordIs(ws, field, lower(t), x)
    case Phrase(ts) => ts != [] && exists start: nat :: WordsAt(ws, lower, field, ts, start)
    case And(ps) => ps != [] && forall i :: 0 <= i < |ps| ==> Accepts(ws, lower, field, ps[i])
    case Or(ps) => exists i :: 0 <= i < |ps| && Accepts(ws, lower, field, ps[i])
    case ColumnFilter(c, p) => Accepts(ws, lower, Joined(c, field), p)
  }

  // ------------------------------------------------------------------
  // Meaning over index tokens, every term behind the prefix `pre`.
  // ------------------------------------------------------------------

  ghost predicate TokenAccepts(ts: seq<Token>, lower: string -> string, pre: string, q: MatchQuery)
    decreases q
  {
    match q
    case Term(t) => Contains(ts, lower(pre + t))
    case Phrase(terms) => terms != [] && PhraseIn(ts, Lowered(lower, Prefixed(pre, terms)))
    case And(ps) => ps != [] && forall i :: 0 <= i < |ps| ==> TokenAccepts(ts, lower, pre, ps[i])
    case Or(ps) => exists i :: 0 <= i < |ps| && TokenAccepts(ts, lower, pre, ps[i])
    case ColumnFilter(c, p) => TokenAccepts(ts, lower, c + ":" + pre, p)
  }

  function Prefixed(pre: string, terms: seq<string>): seq<string> {
    seq(|terms|, i requires 0 <= i < |terms| => pre + terms[i])
  }

  lemma {:induction false} ConcatAssociates(a: string, b: string, c: string)
    ensures (a + b) + c == a + (b + c)
  {
  }

  /** Rewriting a query with a prefix is asking it behind that prefix. */
  lemma {:induction false} PrefixMeaning(ts: seq<Token>, lower: string -> string, pre: string, q: MatchQuery,
      col: string)
    ensures TokenAccepts(ts, lower, pre, PrefixQuery(q, col)) <==> TokenAccepts(ts, lower, pre + (col + ":"), q)
    decreases q
  {
    hide Contains, PhraseIn;
    var longer := pre + (col + ":");
    match q {
      case Term(t) =>
        assert pre + (col + ":" + t) == longer + t;
      case Phrase(terms) =>
        var behind := seq(|terms|, i requires 0 <= i < |terms| => col + ":" + terms[i]);
        forall i | 0 <= i < |terms|
          ensures pre + behind[i] == longer + terms[i]
        {
          assert behind[i] == col + ":" + terms[i];
        }
        assert Prefixed(pre, behind) == Prefixed(longer, terms);
      case And(ps) =>
        forall i | 0 <= i < |ps|
          ensures TokenAccepts(ts, lower, pre, PrefixQuery(ps[i], col)) <==> TokenAccepts(ts, lower, longer, ps[i])
        {
          PrefixMeaning(ts, lower, pre, ps[i], col);
        }
        PrefixAnd(ts, lower, pre, ps, col);
      case Or(ps) =>
        forall i | 0 <= i < |ps|
          ensures TokenAccepts(ts, lower, pre, PrefixQuery(ps[i], col)) <==> TokenAccepts(ts, lower, longer, ps[i])
        {
          PrefixMeaning(ts, lower, pre, ps[i], col);
        }
        PrefixOr(ts, lower, pre, ps, col);
      case ColumnFilter(c, p) =>
        PrefixMeaning(ts, lower, c + ":" + pre, p, col);
        ConcatAssociates(c + ":", pre, col + ":");
    }
  }

  lemma {:induction false} PrefixAnd(ts: seq<Token>, lower: string -> string, pre: string, ps: seq<MatchQuery>,
      col: string)
    requires forall i :: 0 <= i < |ps| ==>
      (TokenAccepts(ts, lower, pre, PrefixQuery(ps[i], col)) <==> TokenAccepts(ts, lower, pre + (col + ":"), ps[i]))
    ensures TokenAccepts(ts, lower, pre, PrefixQuery(And(ps), col))
        <==> TokenAccepts(ts, lower, pre + (col + ":"), And(ps))
  {
    hide Contains, PhraseIn;
    var qs := PrefixQuery(And(ps), col).parts;
    assert |qs| == |ps| && forall i :: 0 <= i < |ps| ==> qs[i] == PrefixQuery(ps[i], col);
  }

  lemma {:induction false} PrefixOr(ts: seq<Token>, lower: string -> string, pre: string, ps: seq<MatchQuery>,
      col: string)
    requires forall i :: 0 <= i < |ps| ==>
      (TokenAccepts(ts, lower, pre, PrefixQuery(ps[i], col)) <==> TokenAccepts(ts, lower, pre + (col + ":"), ps[i]))
    ensures TokenAccepts(ts, lower, pre, PrefixQuery(Or(ps), col))
        <==> TokenAccepts(ts, lower, pre + (col + ":"), Or(ps))
  {
    hide Contains, PhraseIn;
    var qs := PrefixQuery(Or(ps), col).parts;
    assert |qs| == |ps| && forall i :: 0 <= i < |ps| ==> qs[i] == PrefixQuery(ps[i], col);
  }

  // ------------------------------------------------------------------
  // The tokens of a row: each word twice, behind its column name and bare, at the same offset.
  // ------------------------------------------------------------------

  function Doubled(ws: seq<Word>): seq<Token> {
    if ws == [] then []
    else
      var n := |ws| - 1;
      Doubled(ws[..n]) + [Token(ws[n].column + ":" + ws[n].term, AsU32(n)), Token(ws[n].term, AsU32(n))]
  }

  ghost predicate NoColon(s: string) { ':' !in s }

  ghost predicate Clean(ws: seq<Word>) { forall i :: 0 <= i < |ws| ==> NoColon(ws[i].term) }

  function Pre(field: Option<string>): string {
    if field.None? then "" else field.value + ":"
  }

  lemma {:induction false} NoLaterColon(a: string, s: string)
    requires NoColon(s)
    ensures forall k :: |a| < k < |a + ":" + s| ==> (a + ":" + s)[k] != ':'
  {
    forall k | |a| < k < |a + ":" + s|
      ensures (a + ":" + s)[k] != ':'
    {
      assert (a + ":" + s)[k] == s[k - |a| - 1];
    }
  }

  /** Column and term can be told apart again: the term is what follows the last colon. */
  lemma {:induction false} LastColon(a: string, s: string, b: string, t: string)
    requires NoColon(s) && NoColon(t) && a + ":" + s == b + ":" + t
    ensures a == b && s == t
  {
    var u, v := a + ":" + s, b + ":" + t;
    assert u[|a|] == ':' && v[|b|] == ':';
    NoLaterColon(a, s);
    NoLaterColon(b, t);
    assert a == u[..|a|] && b == v[..|a|] && s == u[|a| + 1..] && t == v[|a| + 1..];
  }

  lemma {:induction false} DoubledSize(ws: seq<Word>)
    ensures |Doubled(ws)| == 2 * |ws|
    ensures forall x :: 0 <= x < |ws| ==> PairAt(Doubled(ws), ws, x)
  {
    if ws != [] {
      var n := |ws| - 1;
      DoubledSize(ws[..n]);
      var ds := Doubled(ws[..n]);
      forall x | 0 <= x < |ws|
        ensures PairAt(Doubled(ws), ws, x)
      {
        assert x < n ==> PairAt(ds, ws[..n], x);
      }
    }
  }

  ghost predicate PairAt(ts: seq<Token>, ws: seq<Word>, x: nat) {
    && x < |ws| && 2 * x + 1 < |ts|
    && ts[2 * x] == Token(ws[x].column + ":" + ws[x].term, AsU32(x))
    && ts[2 * x + 1] == Token(ws[x].term, AsU32(x))
  }

  /** What the index holds at an offset. */
  lemma {:induction false} OffsetHolds(ws: seq<Word>, s: string, x: int)
    requires 2 * |ws| < 0x1_0000_0000
    ensures FtsIndex.TokenAt(Doubled(ws), s, x) <==>
      0 <= x < |ws| && (s == ws[x].column + ":" + ws[x].term || s == ws[x].term)
  {
    hide Doubled;
    DoubledSize(ws);
    var ts := Doubled(ws);
    if 0 <= x < |ws| {
      assert PairAt(ts, ws, x);
    }
    if i :| 0 <= i < |ts| && ts[i].term == s && ts[i].offset == x {
      assert PairAt(ts, ws, i / 2);
      assert i == 2 * (i / 2) || i == 2 * (i / 2) + 1;
    }
  }

  lemma {:induction false} OffsetWord(ws: seq<Word>, field: Option<string>, t: string, x: int)
    requires 2 * |ws| < 0x1_0000_0000 && Clean(ws) && NoColon(t)
    ensures FtsIndex.TokenAt(Doubled(ws), Pre(field) + t, x) <==> WordIs(ws, field, t, x)
  {
    hide Doubled, FtsIndex.TokenAt;
    OffsetHolds(ws, Pre(field) + t, x);
    if 0 <= x < |ws| {
      var w := ws[x];
      assert (w.column + ":" + w.term)[|w.column|] == ':';
      if field.None? {
        assert Pre(field) + t == t;
      } else {
        assert (field.value + ":" + t)[|field.value|] == ':';
        if field.value + ":" + t == w.column + ":" + w.term {
          LastColon(field.value, t, w.column, w.term);
        }
      }
    }
  }

  lemma {:induction false} ContainsSomewhere(ts: seq<Token>, s: string)
    ensures Contains(ts, s) <==> exists x :: FtsIndex.TokenAt(ts, s, x)
  {
    if i :| 0 <= i < |ts| && ts[i].term == s {
      assert FtsIndex.TokenAt(ts, s, ts[i].offset);
    }
  }

  /** Terms free of colons, and column names that lower-casing leaves alone. */
  ghost predicate Plain(lower: string -> string, field: Option<string>, q: MatchQuery)
    decreases q
  {
    match q
    case Term(t) => PlainTerm(lower, field, t)
    case Phrase(ts) => forall i :: 0 <= i < |ts| ==> PlainTerm(lower, field, ts[i])
    case And(ps) => forall i :: 0 <= i < |ps| ==> Plain(lower, field, ps[i])
    case Or(ps) => forall i :: 0 <= i < |ps| ==> Plain(lower, field, ps[i])
    case ColumnFilter(c, p) => Plain(lower, Joined(c, field), p)
  }

  ghost predicate PlainTerm(lower: string -> string, field: Option<string>, t: string) {
    NoColon(lower(t)) && lower(Pre(field) + t) == Pre(field) + lower(t)
  }

  /** The index gives every query the meaning the naive evaluator gives it. */
  lemma {:induction false} Agree(ws: seq<Word>, lower: string -> string, field: Option<string>, q: MatchQuery)
    requires 2 * |ws| < 0x1_0000_0000 && Clean(ws) && Plain(lower, field, q)
    ensures TokenAccepts(Doubled(ws), lower, Pre(field), q) <==> Accepts(ws, lower, field, q)
    decreases q
  {
    hide Doubled, Contains, PhraseIn, FtsIndex.TokenAt, WordIs, Clean, PlainTerm, Lowered, Prefixed, WordsAt, Pre;
    match q {
      case Term(t) => AgreeTerm(ws, lower, field, t);
      case Phrase(ts) => AgreePhrase(ws, lower, field, ts);
      case And(ps) =>
        forall i | 0 <= i < |ps|
          ensures TokenAccepts(Doubled(ws), lower, Pre(field), ps[i]) <==> Accepts(ws, lower, field, ps[i])
        {
          Agree(ws, lower, field, ps[i]);
        }
      case Or(ps) =>
        forall i | 0 <= i < |ps|
          ensures TokenAccepts(Doubled(ws), lower, Pre(field), ps[i]) <==> Accepts(ws, lower, field, ps[i])
        {
          Agree(ws, lower, field, ps[i]);
        }
      case ColumnFilter(c, p) =>
        Agree(ws, lower, Joined(c, field), p);
        PreJoined(c, field);
    }
  }

  lemma {:induction false} PreJoined(c: string, field: Option<string>)
    ensures Pre(Joined(c, field)) == c + ":" + Pre(field)
  {
  }

  lemma {:induction false} AgreeTerm(ws: seq<Word>, lower: string -> string, field: Option<string>, t: string)
    requires 2 * |ws| < 0x1_0000_0000 && Clean(ws) && PlainTerm(lower, field, t)
    ensures Contains(Doubled(ws), lower(Pre(field) + t)) <==> exists x :: WordIs(ws, field, lower(t), x)
  {
    hide Doubled, Contains, FtsIndex.TokenAt, WordIs, Clean, Pre;
    ContainsSomewhere(Doubled(ws), lower(Pre(field) + t));
    forall x
      ensures FtsIndex.TokenAt(Doubled(ws), lower(Pre(field) + t), x) <==> WordIs(ws, field, lower(t), x)
    {
      OffsetWord(ws, field, lower(t), x);
    }
  }

  lemma {:induction false} AgreePhrase(ws: seq<Word>, lower: string -> string, field: Option<string>, ts: seq<string>)
    requires 2 * |ws| < 0x1_0000_0000 && Clean(ws) && forall i :: 0 <= i < |ts| ==> PlainTerm(lower, field, ts[i])
    ensures PhraseIn(Doubled(ws), Lowered(lower, Prefixed(Pre(field), ts))) <==>
      exists start: nat :: WordsAt(ws, lower, field, ts, start)
  {
    hide Doubled, Contains, FtsIndex.TokenAt, WordIs, Clean, Pre, NoColon;
    var terms := Lowered(lower, Prefixed(Pre(field), ts));
    forall start: nat
      ensures PhraseAt(Doubled(ws), terms, start) <==> WordsAt(ws, lower, field, ts, start)
    {
      forall i | 0 <= i < |ts|
        ensures FtsIndex.TokenAt(Doubled(ws), terms[i], start + i) <==> WordIs(ws, field, lower(ts[i]), start + i)
      {
        OffsetWord(ws, field, lower(ts[i]), start + i);
      }
    }
  }

  // ------------------------------------------------------------------
  // What a query finds in every case: the strings that are looked up, word by word.
  // ------------------------------------------------------------------

  /** Looking up `s` finds word number `x`: as the bare term, or behind its column name. */
  ghost predicate Finds(ws: seq<Word>, s: string, x: int) {
    0 <= x < |ws| && (s == ws[x].term || s == ws[x].column + ":" + ws[x].term)
  }

  ghost predicate FindsAt(ws: seq<Word>, lower: string -> string, pre: string, terms: seq<string>, start: nat) {
    forall i :: 0 <= i < |terms| ==> Finds(ws, lower(pre + terms[i]), start + i)
  }

  /** The evaluator that looks up each term, lower-cased together with its column prefix. */
  ghost predicate LooksUp(ws: seq<Word>, lower: string -> string, pre: string, q: MatchQuery)
    decreases q
  {
    match q
    case Term(t) => exists x :: Finds(ws, lower(pre + t), x)
    case Phrase(ts) => ts != [] && exists start: nat :: FindsAt(ws, lower, pre, ts, start)
    case And(ps) => ps != [] && forall i :: 0 <= i < |ps| ==> LooksUp(ws, lower, pre, ps[i])
    case Or(ps) => exists i :: 0 <= i < |ps| && LooksUp(ws, lower, pre, ps[i])
    case ColumnFilter(c, p) => LooksUp(ws, lower, c + ":" + pre, p)
  }

  /** The index gives every query that meaning, whatever lower-casing does. */
  lemma {:induction false} AlwaysLooksUp(ws: seq<Word>, lower: string -> string, pre: string, q: MatchQuery)
    requires 2 * |ws| < 0x1_0000_0000
    ensures TokenAccepts(Doubled(ws), lower, pre, q) <==> LooksUp(ws, lower, pre, q)
    decreases q
  {
    hide Doubled, Contains, PhraseIn, FtsIndex.TokenAt, Finds, FindsAt, Lowered, Prefixed;
    match q {
      case Term(t) =>
        ContainsSomewhere(Doubled(ws), lower(pre + t));
        forall x
          ensures FtsIndex.TokenAt(Doubled(ws), lower(pre + t), x) <==> Finds(ws, lower(pre + t), x)
        {
          FoundAt(ws, lower(pre + t), x);
        }
      case Phrase(ts) => PhraseLooksUp(ws, lower, pre, ts);
      case And(ps) =>
        forall i | 0 <= i < |ps|
          ensures TokenAccepts(Doubled(ws), lower, pre, ps[i]) <==> LooksUp(ws, lower, pre, ps[i])
        {
          AlwaysLooksUp(ws, lower, pre, ps[i]);
        }
      case Or(ps) =>
        forall i | 0 <= i < |ps|
          ensures TokenAccepts(Doubled(ws), lower, pre, ps[i]) <==> LooksUp(ws, lower, pre, ps[i])
        {
          AlwaysLooksUp(ws, lower, pre, ps[i]);
        }
      case ColumnFilter(c, p) => AlwaysLooksUp(ws, lower, c + ":" + pre, p);
    }
  }

  lemma {:induction false} FoundAt(ws: seq<Word>, s: string, x: int)
    requires 2 * |ws| < 0x1_0000_0000
    ensures FtsIndex.TokenAt(Doubled(ws), s, x) <==> Finds(ws, s, x)
  {
    hide Doubled, FtsIndex.TokenAt;
    OffsetHolds(ws, s, x);
  }

  lemma {:induction false} PhraseLooksUp(ws: seq<Word>, lower: string -> string, pre: string, ts: seq<string>)
    requires 2 * |ws| < 0x1_0000_0000
    ensures PhraseIn(Doubled(ws), Lowered(lower, Prefixed(pre, ts))) <==>
      exists start: nat :: FindsAt(ws, lower, pre, ts, start)
  {
    hide Doubled, FtsIndex.TokenAt, Finds;
    var terms := Lowered(lower, Prefixed(pre, ts));
    forall start: nat
      ensures PhraseAt(Doubled(ws), terms, start) <==> FindsAt(ws, lower, pre, ts, start)
    {
      forall i | 0 <= i < |ts|
        ensures FtsIndex.TokenAt(Doubled(ws), terms[i], start + i) <==> Finds(ws, lower(pre + ts[i]), start + i)
      {
        FoundAt(ws, lower(pre + ts[i]), start + i);
      }
    }
  }

  // ------------------------------------------------------------------
  // Which column a filter looks in.
  // ------------------------------------------------------------------

  /** No filter inside, and no empty conjunction, disjunction or phrase. */
  ghost predicate Simple(q: MatchQuery) {
    match q
    case Term(_) => true
    case Phrase(ts) => ts != []
    case And(ps) => ps != [] && forall i :: 0 <= i < |ps| ==> Simple(ps[i])
    case Or(ps) => ps != [] && forall i :: 0 <= i < |ps| ==> Simple(ps[i])
    case ColumnFilter(_, _) => false
  }

  /** Lower-casing a term behind `c:` lower-cases the term and turns the column name into `folded`. */
  ghost predicate Folds(lower: string -> string, c: string, folded: string, q: MatchQuery)
    decreases q
  {
    match q
    case Term(t) => FoldsTerm(lower, c, folded, t)
    case Phrase(ts) => forall i :: 0 <= i < |ts| ==> FoldsTerm(lower, c, folded, ts[i])
    case And(ps) => forall i :: 0 <= i < |ps| ==> Folds(lower, c, folded, ps[i])
    case Or(ps) => forall i :: 0 <= i < |ps| ==> Folds(lower, c, folded, ps[i])
    case ColumnFilter(_, p) => Folds(lower, c, folded, p)
  }

  ghost predicate FoldsTerm(lower: string -> string, c: string, folded: string, t: string) {
    NoColon(lower(t)) && lower(c + ":" + t) == folded + ":" + lower(t)
  }

  /** A filter on `c` looks in the column named `folded`. */
  lemma {:induction false} FilterFolds(ws: seq<Word>, lower: string -> string, c: string, folded: string, q: MatchQuery)
    requires Clean(ws) && Simple(q) && Folds(lower, c, folded, q)
    ensures LooksUp(ws, lower, c + ":", q) <==> Accepts(ws, lower, Some(folded), q)
    decreases q
  {
    hide Finds, WordIs, Clean, FoldsTerm, FindsAt, WordsAt;
    match q {
      case Term(t) =>
        forall x
          ensures Finds(ws, lower(c + ":" + t), x) <==> WordIs(ws, Some(folded), lower(t), x)
        {
          FoldedWord(ws, lower, c, folded, t, x);
        }
      case Phrase(ts) => PhraseFolds(ws, lower, c, folded, ts);
      case And(ps) =>
        forall i | 0 <= i < |ps|
          ensures LooksUp(ws, lower, c + ":", ps[i]) <==> Accepts(ws, lower, Some(folded), ps[i])
        {
          FilterFolds(ws, lower, c, folded, ps[i]);
        }
      case Or(ps) =>
        forall i | 0 <= i < |ps|
          ensures LooksUp(ws, lower, c + ":", ps[i]) <==> Accepts(ws, lower, Some(folded), ps[i])
        {
          FilterFolds(ws, lower, c, folded, ps[i]);
        }
    }
  }

  lemma {:induction false} PhraseFolds(ws: seq<Word>, lower: string -> string, c: string, folded: string,
      ts: seq<string>)
    requires Clean(ws) && forall i :: 0 <= i < |ts| ==> FoldsTerm(lower, c, folded, ts[i])
    ensures forall start: nat :: FindsAt(ws, lower, c + ":", ts, start) <==> WordsAt(ws, lower, Some(folded), ts, start)
  {
    hide Finds, WordIs, Clean, FoldsTerm;
    forall start: nat
      ensures FindsAt(ws, lower, c + ":", ts, start) <==> WordsAt(ws, lower, Some(folded), ts, start)
    {
      forall i | 0 <= i < |ts|
        ensures Finds(ws, lower(c + ":" + ts[i]), start + i) <==> WordIs(ws, Some(folded), lower(ts[i]), start + i)
      {
        FoldedWord(ws, lower, c, folded, ts[i], start + i);
      }
    }
  }

  lemma {:induction false} FoldedWord(ws: seq<Word>, lower: string -> string, c: string, folded: string, t: string,
      x: int)
    requires Clean(ws) && FoldsTerm(lower, c, folded, t)
    ensures Finds(ws, lower(c + ":" + t), x) <==> WordIs(ws, Some(folded), lower(t), x)
  {
    if 0 <= x < |ws| {
      var s, w := folded + ":" + lower(t), ws[x];
      assert s[|folded|] == ':' && s != w.term;
      if s == w.column + ":" + w.term {
        LastColon(folded, lower(t), w.column, w.term);
      }
    }
  }

  /** A row made of the words of the query, all in one column. */
  ghost function Witness(lower: string -> string, q: MatchQuery, c: string): seq<Word>
    decreases q
  {
    match q
    case Term(t) => [Word(c, lower(t))]
    case Phrase(ts) => seq(|ts|, i requires 0 <= i < |ts| => Word(c, lower(ts[i])))
    case And(ps) => WitnessAll(lower, ps, c)
    case Or(ps) => WitnessAll(lower, ps, c)
    case ColumnFilter(_, p) => Witness(lower, p, c)
  }

  ghost function WitnessAll(lower: string -> string, ps: seq<MatchQuery>, c: string): seq<Word>
    decreases ps
  {
    if ps == [] then [] else Witness(lower, ps[0], c) + WitnessAll(lower, ps[1..], c)
  }

  ghost predicate AllIn(ws: seq<Word>, c: string) {
    forall i :: 0 <= i < |ws| ==> ws[i].column == c && NoColon(ws[i].term)
  }

  lemma {:induction false} WitnessIn(lower: string -> string, q: MatchQuery, c: string, folded: string)
    requires Folds(lower, c, folded, q)
    ensures AllIn(Witness(lower, q, c), c)
    decreases q
  {
    if q.And? || q.Or? {
      WitnessAllIn(lower, q.parts, c, folded);
    } else if q.ColumnFilter? {
      WitnessIn(lower, q.query, c, folded);
    }
  }

  lemma {:induction false} WitnessAllIn(lower: string -> string, ps: seq<MatchQuery>, c: string, folded: string)
    requires forall i :: 0 <= i < |ps| ==> Folds(lower, c, folded, ps[i])
    ensures AllIn(WitnessAll(lower, ps, c), c)
    decreases ps
  {
    hide Folds;
    if ps != [] {
      WitnessIn(lower, ps[0], c, folded);
      WitnessAllIn(lower, ps[1..], c, folded);
    }
  }

  /** The witness satisfies the query in its column, whatever stands before and after it. */
  lemma {:induction false} WitnessAccepted(lower: string -> string, q: MatchQuery, c: string, a: seq<Word>,
      b: seq<Word>)
    requires Simple(q)
    ensures Accepts(a + Witness(lower, q, c) + b, lower, Some(c), q)
    decreases q
  {
    var w := Witness(lower, q, c);
    var ws := a + w + b;
    match q {
      case Term(t) =>
        assert ws[|a|] == w[0];
        assert WordIs(ws, Some(c), lower(t), |a|);
      case Phrase(ts) =>
        forall i | 0 <= i < |ts|
          ensures WordIs(ws, Some(c), lower(ts[i]), |a| + i)
        {
          assert ws[|a| + i] == w[i];
        }
        assert WordsAt(ws, lower, Some(c), ts, |a|);
      case And(ps) => WitnessesAccepted(lower, ps, c, a, b);
      case Or(ps) =>
        WitnessesAccepted(lower, ps, c, a, b);
        assert Accepts(ws, lower, Some(c), ps[0]);
    }
  }

  lemma {:induction false} WitnessesAccepted(lower: string -> string, ps: seq<MatchQuery>, c: string, a: seq<Word>,
      b: seq<Word>)
    requires forall i :: 0 <= i < |ps| ==> Simple(ps[i])
    ensures forall i :: 0 <= i < |ps| ==> Accepts(a + WitnessAll(lower, ps, c) + b, lower, Some(c), ps[i])
    decreases ps
  {
    hide Accepts, Simple;
    if ps != [] {
      var first, rest := Witness(lower, ps[0], c), WitnessAll(lower, ps[1..], c);
      assert a + (first + rest) + b == a + first + (rest + b) == (a + first) + rest + b;
      WitnessAccepted(lower, ps[0], c, a, rest + b);
      WitnessesAccepted(lower, ps[1..], c, a + first, b);
      forall i | 0 <= i < |ps|
        ensures Accepts(a + WitnessAll(lower, ps, c) + b, lower, Some(c), ps[i])
      {
        assert i > 0 ==> ps[i] == ps[1..][i - 1];
      }
    }
  }

  /** A row without words in a column satisfies no simple query there. */
  lemma {:induction false} NothingElsewhere(ws: seq<Word>, lower: string -> string, c: string, f: string, q: MatchQuery)
    requires AllIn(ws, c) && f != c && Simple(q)
    ensures !Accepts(ws, lower, Some(f), q)
    decreases q
  {
    match q {
      case Term(t) =>
      case Phrase(ts) =>
        forall start: nat
          ensures !WordsAt(ws, lower, Some(f), ts, start)
        {
          assert !WordIs(ws, Some(f), lower(ts[0]), start + 0);
        }
      case And(ps) => NothingElsewhere(ws, lower, c, f, ps[0]);
      case Or(ps) =>
        forall i | 0 <= i < |ps|
          ensures !Accepts(ws, lower, Some(f), ps[i])
        {
          NothingElsewhere(ws, lower, c, f, ps[i]);
        }
    }
  }

  /** The index and the naive evaluator agree on the filter for this row. */
  ghost predicate FilterAgrees(ws: seq<Word>, lower: string -> string, c: string, q: MatchQuery) {
    TokenAccepts(Doubled(ws), lower, "", ColumnFilter(c, q)) <==> Accepts(ws, lower, None, ColumnFilter(c, q))
  }

  /** A filter on `c` finds, in every row, what it names if and only if lower-casing leaves the column
      name alone; the failing row holds the words of the query in that column. */
  lemma {:induction false} FilterRight(lower: string -> string, c: string, folded: string, q: MatchQuery)
    requires Simple(q) && Folds(lower, c, folded, q) && 2 * |Witness(lower, q, c)| < 0x1_0000_0000
    ensures (forall ws :: 2 * |ws| < 0x1_0000_0000 && Clean(ws) ==> FilterAgrees(ws, lower, c, q)) <==> folded == c
  {
    hide Folds, TokenAccepts, LooksUp, Accepts, Doubled, Clean, Witness, AllIn, FilterAgrees;
    forall ws | 2 * |ws| < 0x1_0000_0000 && Clean(ws)
      ensures FilterAgrees(ws, lower, c, q)
          <==> (Accepts(ws, lower, Some(folded), q) <==> Accepts(ws, lower, Some(c), q))
    {
      OneFilter(ws, lower, c, folded, q);
    }
    if folded != c {
      var ws := Witness(lower, q, c);
      WitnessIn(lower, q, c, folded);
      InIsClean(ws, c);
      WitnessAccepted(lower, q, c, [], []);
      assert [] + ws + [] == ws;
      NothingElsewhere(ws, lower, c, folded, q);
      assert !FilterAgrees(ws, lower, c, q);
    }
  }

  lemma {:induction false} OneFilter(ws: seq<Word>, lower: string -> string, c: string, folded: string, q: MatchQuery)
    requires 2 * |ws| < 0x1_0000_0000 && Clean(ws) && Simple(q) && Folds(lower, c, folded, q)
    ensures FilterAgrees(ws, lower, c, q) <==> (Accepts(ws, lower, Some(folded), q) <==> Accepts(ws, lower, Some(c), q))
  {
    hide Folds, Doubled, Clean, Simple;
    AlwaysLooksUp(ws, lower, "", ColumnFilter(c, q));
    assert c + ":" + "" == c + ":";
    FilterFolds(ws, lower, c, folded, q);
  }

  lemma {:induction false} InIsClean(ws: seq<Word>, c: string)
    requires AllIn(ws, c)
    ensures Clean(ws)
  {
  }

  // ------------------------------------------------------------------
  // Reading a query.
  // ------------------------------------------------------------------

  function FlattenOr(l: MatchQuery, r: MatchQuery): MatchQuery {
    if l.Or? then Or(l.parts + (if r.Or? then r.parts else [r])) else Or([l, r])
  }

  function FlattenAnd(l: MatchQuery, r: MatchQuery): MatchQuery {
    if l.And? then And(l.parts + (if r.And? then r.parts else [r])) else And([l, r])
  }

  /** Flattening keeps the meaning: a row satisfies it if it satisfies either side. */
  lemma {:induction false} FlattenOrMeaning(ws: seq<Word>, lower: string -> string, field: Option<string>,
      l: MatchQuery, r: MatchQuery)
    ensures Accepts(ws, lower, field, FlattenOr(l, r)) <==> Accepts(ws, lower, field, l) || Accepts(ws, lower, field, r)
  {
    hide WordsAt, WordIs;
    var ps := FlattenOr(l, r).parts;
    if l.Or? {
      OrSplits(ws, lower, field, l.parts, if r.Or? then r.parts else [r]);
    } else {
      assert ps[0] == l && ps[1] == r;
    }
    if !r.Or? {
      assert [r][0] == r;
    }
  }

  lemma {:induction false} OrSplits(ws: seq<Word>, lower: string -> string, field: Option<string>, a: seq<MatchQuery>,
      b: seq<MatchQuery>)
    ensures Accepts(ws, lower, field, Or(a + b))
        <==> Accepts(ws, lower, field, Or(a)) || Accepts(ws, lower, field, Or(b))
  {
    hide WordsAt, WordIs;
    if i :| 0 <= i < |a| && Accepts(ws, lower, field, a[i]) {
      assert (a + b)[i] == a[i];
    }
    if i :| 0 <= i < |b| && Accepts(ws, lower, field, b[i]) {
      assert (a + b)[|a| + i] == b[i];
    }
  }

  /** A row satisfies it if it satisfies both sides; neither side may be the empty conjunction. */
  lemma {:induction false} FlattenAndMeaning(ws: seq<Word>, lower: string -> string, field: Option<string>,
      l: MatchQuery, r: MatchQuery)
    requires l != And([]) && r != And([])
    ensures Accepts(ws, lower, field, FlattenAnd(l, r))
        <==> Accepts(ws, lower, field, l) && Accepts(ws, lower, field, r)
  {
    hide WordsAt, WordIs;
    if l.And? {
      AndSplits(ws, lower, field, l.parts, if r.And? then r.parts else [r]);
    } else {
      AndPair(ws, lower, field, l, r);
    }
    if !r.And? {
      AndOne(ws, lower, field, r);
    }
  }

  lemma {:induction false} AndOne(ws: seq<Word>, lower: string -> string, field: Option<string>, r: MatchQuery)
    ensures Accepts(ws, lower, field, And([r])) <==> Accepts(ws, lower, field, r)
  {
    hide WordsAt, WordIs;
    assert [r][0] == r;
  }

  lemma {:induction false} AndPair(ws: seq<Word>, lower: string -> string, field: Option<string>, l: MatchQuery,
      r: MatchQuery)
    ensures Accepts(ws, lower, field, And([l, r])) <==> Accepts(ws, lower, field, l) && Accepts(ws, lower, field, r)
  {
    hide WordsAt, WordIs;
    assert [l, r][0] == l && [l, r][1] == r;
  }

  lemma {:induction false} AndSplits(ws: seq<Word>, lower: string -> string, field: Option<string>, a: seq<MatchQuery>,
      b: seq<MatchQuery>)
    requires a != [] && b != []
    ensures Accepts(ws, lower, field, And(a + b))
        <==> Accepts(ws, lower, field, And(a)) && Accepts(ws, lower, field, And(b))
  {
    hide WordsAt, WordIs;
    if Accepts(ws, lower, field, And(a + b)) {
      forall i | 0 <= i < |a|
        ensures Accepts(ws, lower, field, a[i])
      {
        assert (a + b)[i] == a[i];
      }
      forall i | 0 <= i < |b|
        ensures Accepts(ws, lower, field, b[i])
      {
        assert (a + b)[|a| + i] == b[i];
      }
    }
  }

  // ------------------------------------------------------------------
  // Phrases without a filter.
  // ------------------------------------------------------------------

  /** The `n` words from `start` on are of one column. */
  ghost predicate SameColumn(ws: seq<Word>, start: nat, n: nat) {
    start + n <= |ws| && forall k :: start <= k < start + n ==> ws[k].column == ws[start].column
  }

  /** An unfiltered phrase that stands at `start` lies inside one column if and only if its words do. */
  lemma {:induction false} InOneColumn(ws: seq<Word>, lower: string -> string, ts: seq<string>, start: nat)
    requires ts != [] && WordsAt(ws, lower, None, ts, start)
    ensures (exists c :: WordsAt(ws, lower, Some(c), ts, start)) <==> SameColumn(ws, start, |ts|)
  {
    if c :| WordsAt(ws, lower, Some(c), ts, start) {
      Filtered(ws, lower, c, ts, start);
    }
    if SameColumn(ws, start, |ts|) {
      var c := ws[start].column;
      forall i | 0 <= i < |ts|
        ensures WordIs(ws, Some(c), lower(ts[i]), start + i)
      {
        assert WordIs(ws, None, lower(ts[i]), start + i);
      }
      assert WordsAt(ws, lower, Some(c), ts, start);
    }
  }

  lemma {:induction false} Filtered(ws: seq<Word>, lower: string -> string, c: string, ts: seq<string>, start: nat)
    requires ts != [] && WordsAt(ws, lower, Some(c), ts, start)
    ensures SameColumn(ws, start, |ts|)
  {
    assert WordIs(ws, Some(c), lower(ts[0]), start + 0);
    forall k | start <= k < start + |ts|
      ensures k < |ws| && ws[k].column == c
    {
      assert WordIs(ws, Some(c), lower(ts[k - start]), start + (k - start));
    }
    assert WordIs(ws, Some(c), lower(ts[|ts| - 1]), start + (|ts| - 1));
  }

  /** The words of the phrase, the first in column `a` and the others in column `b`. */
  function Straddling(lower: string -> string, ts: seq<string>, a: string, b: string): seq<Word> {
    seq(|ts|, i requires 0 <= i < |ts| => Word(if i == 0 then a else b, lower(ts[i])))
  }

  lemma {:induction false} NotInOne(lower: string -> string, ts: seq<string>, a: string, b: string)
    requires a != b && |ts| >= 2
    ensures !SameColumn(Straddling(lower, ts, a, b), 0, |ts|)
  {
    var ws := Straddling(lower, ts, a, b);
    assert ws[1].column != ws[0].column;
  }

  /** That every row in which an unfiltered phrase is found has it inside one column holds if and only
      if the phrase is of at most one word: a longer one is also found across two columns. */
  lemma {:induction false} AcrossColumns(lower: string -> string, ts: seq<string>, a: string, b: string)
    requires a != b
    ensures (forall ws :: Accepts(ws, lower, None, Phrase(ts)) ==> exists c :: Accepts(ws, lower, Some(c), Phrase(ts)))
      <==> |ts| <= 1
  {
    if |ts| <= 1 {
      forall ws | Accepts(ws, lower, None, Phrase(ts))
        ensures exists c :: Accepts(ws, lower, Some(c), Phrase(ts))
      {
        var start: nat :| WordsAt(ws, lower, None, ts, start);
        assert WordIs(ws, None, lower(ts[0]), start + 0);
        InOneColumn(ws, lower, ts, start);
        var c :| WordsAt(ws, lower, Some(c), ts, start);
        assert Accepts(ws, lower, Some(c), Phrase(ts));
      }
    } else {
      var ws := Straddling(lower, ts, a, b);
      assert WordsAt(ws, lower, None, ts, 0);
      assert Accepts(ws, lower, None, Phrase(ts));
      NotInOne(lower, ts, a, b);
      forall c, start: nat | WordsAt(ws, lower, Some(c), ts, start)
        ensures false
      {
        Filtered(ws, lower, c, ts, start);
        assert false;
      }
    }
  }
}
