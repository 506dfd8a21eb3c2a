/** Reading a match query from text (src/fts/fts_table.rs). */
module FtsParse {
  import opened Keys
  import opened Tokenizer
  import opened FtsQuery

  /** What reading a query takes from the Unicode tables besides the tokenizer's alphabet:
      `char::is_whitespace` and `str::to_lowercase`. */
  datatype Reader = Reader(ab: Alphabet, space: char -> bool, lower: string -> string)

  function Trim(space: char -> bool, s: string): (r: string)
    ensures |r| <= |s| && forall c :: c in r ==> c in s
    ensures r != [] ==> !space(r[0]) && !space(r[|r| - 1])
  {
    if s == [] then []
    else if space(s[0]) then Trim(space, s[1..])
    else if space(s[|s| - 1]) then Trim(space, s[..|s| - 1])
    else s
  }

  /** An odd number of quotes among the first `n` characters. */
  predicate Quoted(s: string, n: nat)
    requires n <= |s|
  {
    n > 0 && (Quoted(s, n - 1) != (s[n - 1] == '\"'))
  }

  predicate KeywordAt(s: string, kw: string, i: nat)
    requires i < |s|
  {
    !Quoted(s, i + 1) && kw <= s[i..]
  }

  /** The first place at or after `i` where the keyword stands outside quotes. */
  function FindKeyword(s: string, kw: string, i: nat := 0): (r: Option<nat>)
    requires i <= |s|
    ensures r.Some? ==> i <= r.value < |s| && KeywordAt(s, kw, r.value)
    ensures forall j :: i <= j < (if r.Some? then r.value else |s|) ==> !KeywordAt(s, kw, j)
    decreases |s| - i
  {
    if i == |s| then None
    else if KeywordAt(s, kw, i) then Some(i)
    else FindKeyword(s, kw, i + 1)
  }

  function FindColon(s: string, i: nat := 0): (r: Option<nat>)
    requires i <= |s|
    ensures r.Some? ==> i <= r.value < |s| && s[r.value] == ':'
    ensures forall j :: i <= j < (if r.Some? then r.value else |s|) ==> s[j] != ':'
    decreases |s| - i
  {
    if i == |s| then None else if s[i] == ':' then Some(i) else FindColon(s, i + 1)
  }

  function Join(l: Option<MatchQuery>, r: Option<MatchQuery>,
      f: (MatchQuery, MatchQuery) -> MatchQuery): Option<MatchQuery> {
    if l.Some? && r.Some? then Some(f(l.value, r.value)) else None
  }

  /** None is the panic on slicing a lone quote. */
  function Parse(rd: Reader, text: string): Option<MatchQuery>
    decreases |text|
  {
    var q := Trim(rd.space, text);
    var either, both, colon := FindKeyword(q, " OR "), FindKeyword(q, " AND "), FindColon(q);
    if either.Some? then
      Join(Parse(rd, q[..either.value]), Parse(rd, q[either.value + 4..]), FlattenOr)
    else if both.Some? then
      Join(Parse(rd, q[..both.value]), Parse(rd, q[both.value + 5..]), FlattenAnd)
    else if q != [] && q[0] == '\"' && q[|q| - 1] == '\"' then
      if |q| == 1 then None else Some(Phrase(Terms(TokensOf(rd.ab, q[1..|q| - 1]))))
    else if colon.Some? then
      var rest := Parse(rd, q[colon.value + 1..]);
      if rest.None? then None else Some(ColumnFilter(q[..colon.value], rest.value))
    else Some(Term(rd.lower(q)))
  }

  /** The scan for a keyword: one pass, counting quotes. */
  method ScanKeyword(s: string, kw: string) returns (r: Option<nat>)
    ensures r == FindKeyword(s, kw)
  {
    var open := false;
    for i := 0 to |s|
      invariant open == Quoted(s, i) && FindKeyword(s, kw) == FindKeyword(s, kw, i)
    {
      if s[i] == '\"' {
        open := !open;
      }
      if !open && kw <= s[i..] {
        return Some(i);
      }
    }
    return None;
  }

  lemma {:induction false} KeywordFits(q: string)
    ensures FindKeyword(q, " OR ").Some? ==> FindKeyword(q, " OR ").value + 4 <= |q|
    ensures FindKeyword(q, " AND ").Some? ==> FindKeyword(q, " AND ").value + 5 <= |q|
  {
    hide FindKeyword, Quoted;
  }

  /** The cases of `Parse`, each on its own. */
  lemma {:induction false} ParseCases(rd: Reader, text: string)
    ensures var q := Trim(rd.space, text); var either := FindKeyword(q, " OR ");
      either.Some? ==>
        && either.value + 4 <= |q| <= |text|
        && Parse(rd, text) == Join(Parse(rd, q[..either.value]), Parse(rd, q[either.value + 4..]), FlattenOr)
    ensures var q := Trim(rd.space, text); var either, both := FindKeyword(q, " OR "), FindKeyword(q, " AND ");
      either.None? && both.Some? ==>
        && both.value + 5 <= |q| <= |text|
        && Parse(rd, text) == Join(Parse(rd, q[..both.value]), Parse(rd, q[both.value + 5..]), FlattenAnd)
    ensures var q := Trim(rd.space, text); var colon := FindColon(q);
      FindKeyword(q, " OR ").None? && FindKeyword(q, " AND ").None? ==>
        Parse(rd, text) ==
          if q != [] && q[0] == '\"' && q[|q| - 1] == '\"' then
            if |q| == 1 then None else Some(Phrase(Terms(TokensOf(rd.ab, q[1..|q| - 1]))))
          else if colon.Some? then
            var rest := Parse(rd, q[colon.value + 1..]);
            if rest.None? then None else Some(ColumnFilter(q[..colon.value], rest.value))
          else Some(Term(rd.lower(q)))
  {
    hide FlattenOr, FlattenAnd, TokensOf, FindKeyword, FindColon, KeywordAt, Trim, Join;
    KeywordFits(Trim(rd.space, text));
  }

  method ParseMatchQuery(rd: Reader, text: string) returns (r: Option<MatchQuery>)
    ensures r == Parse(rd, text)
    decreases |text|
  {
    hide FlattenOr, FlattenAnd, TokensOf, FindKeyword, FindColon, KeywordAt, Trim, Quoted, Join, Parse;
    ParseCases(rd, text);
    var q := Trim(rd.space, text);
    var either := ScanKeyword(q, " OR ");
    if either.Some? {
      var left := ParseMatchQuery(rd, q[..either.value]);
      var right := ParseMatchQuery(rd, q[either.value + 4..]);
      return Join(left, right, FlattenOr);
    }
    var both := ScanKeyword(q, " AND ");
    if both.Some? {
      var left := ParseMatchQuery(rd, q[..both.value]);
      var right := ParseMatchQuery(rd, q[both.value + 5..]);
      return Join(left, right, FlattenAnd);
    }
    if q != [] && q[0] == '\"' && q[|q| - 1] == '\"' {
      if |q| == 1 {
        return None;
      }
      var tokens := Tokenize(rd.ab, q[1..|q| - 1]);
      return Some(Phrase(Terms(tokens)));
    }
    var colon := FindColon(q);
    if colon.Some? {
      var rest := ParseMatchQuery(rd, q[colon.value + 1..]);
      return if rest.None? then None else Some(ColumnFilter(q[..colon.value], rest.value));
    }
    return Some(Term(rd.lower(q)));
  }

  /** A query is read as a disjunction if the keyword stands outside quotes, whatever conjunctions
      surround it: OR binds looser than AND. */
  lemma {:induction false} ReadsOr(rd: Reader, text: string, ws: seq<Word>, field: Option<string>)
    requires Parse(rd, text).Some? && FindKeyword(Trim(rd.space, text), " OR ").Some?
    ensures var q := Trim(rd.space, text); var p := FindKeyword(q, " OR ").value;
      && Parse(rd, q[..p]).Some? && Parse(rd, q[p + 4..]).Some?
      && (Accepts(ws, rd.lower, field, Parse(rd, text).value) <==>
          Accepts(ws, rd.lower, field, Parse(rd, q[..p]).value)
              || Accepts(ws, rd.lower, field, Parse(rd, q[p + 4..]).value))
  {
    hide Accepts, FlattenOr, FlattenAnd, Quoted, FindKeyword, FindColon, Trim;
    var q := Trim(rd.space, text);
    var p := FindKeyword(q, " OR ").value;
    FlattenOrMeaning(ws, rd.lower, field, Parse(rd, q[..p]).value, Parse(rd, q[p + 4..]).value);
  }

  /** Without such a disjunction, AND outside quotes reads as a conjunction. */
  lemma {:induction false} ReadsAnd(rd: Reader, text: string, ws: seq<Word>, field: Option<string>)
    requires Parse(rd, text).Some? && FindKeyword(Trim(rd.space, text), " OR ").None?
    requires FindKeyword(Trim(rd.space, text), " AND ").Some?
    ensures var q := Trim(rd.space, text); var p := FindKeyword(q, " AND ").value;
      && Parse(rd, q[..p]).Some? && Parse(rd, q[p + 5..]).Some?
      && (Accepts(ws, rd.lower, field, Parse(rd, text).value) <==>
          Accepts(ws, rd.lower, field, Parse(rd, q[..p]).value)
              && Accepts(ws, rd.lower, field, Parse(rd, q[p + 5..]).value))
  {
    hide Accepts, FlattenOr, FlattenAnd, Shaped, Quoted, FindKeyword, FindColon, Trim;
    var q := Trim(rd.space, text);
    var p := FindKeyword(q, " AND ").value;
    ParseShaped(rd, q[..p]);
    ParseShaped(rd, q[p + 5..]);
    ShapedPart(Parse(rd, q[..p]).value);
    ShapedPart(Parse(rd, q[p + 5..]).value);
    FlattenAndMeaning(ws, rd.lower, field, Parse(rd, q[..p]).value, Parse(rd, q[p + 5..]).value);
  }

  /** No empty conjunction or disjunction anywhere. */
  ghost predicate Shaped(q: MatchQuery) {
    match q
    case Term(_) => true
    case Phrase(_) => true
    case And(ps) => ps != [] && forall i :: 0 <= i < |ps| ==> Shaped(ps[i])
    case Or(ps) => ps != [] && forall i :: 0 <= i < |ps| ==> Shaped(ps[i])
    case ColumnFilter(_, p) => Shaped(p)
  }

  lemma {:induction false} ShapedPart(q: MatchQuery)
    requires Shaped(q)
    ensures q != And([]) && q != Or([])
  {
  }

  lemma {:induction false} FlattenShaped(l: MatchQuery, r: MatchQuery)
    requires Shaped(l) && Shaped(r)
    ensures Shaped(FlattenOr(l, r)) && Shaped(FlattenAnd(l, r))
  {
    assert FlattenOr(l, r).parts != [] && FlattenAnd(l, r).parts != [];
  }

  lemma {:induction false} ParseShaped(rd: Reader, text: string)
    requires Parse(rd, text).Some?
    ensures Shaped(Parse(rd, text).value)
    decreases |text|
  {
    hide FlattenOr, FlattenAnd, Shaped, Quoted, FindKeyword, FindColon, Trim;
    var q := Trim(rd.space, text);
    var either, both, colon := FindKeyword(q, " OR "), FindKeyword(q, " AND "), FindColon(q);
    if either.Some? {
      ParseShaped(rd, q[..either.value]);
      ParseShaped(rd, q[either.value + 4..]);
      FlattenShaped(Parse(rd, q[..either.value]).value, Parse(rd, q[either.value + 4..]).value);
    } else if both.Some? {
      ParseShaped(rd, q[..both.value]);
      ParseShaped(rd, q[both.value + 5..]);
      FlattenShaped(Parse(rd, q[..both.value]).value, Parse(rd, q[both.value + 5..]).value);
    } else {
      if colon.Some? && !(q[0] == '\"' && q[|q| - 1] == '\"') {
        ParseShaped(rd, q[colon.value + 1..]);
        FilterShaped(q[..colon.value], Parse(rd, q[colon.value + 1..]).value);
      } else {
        AtomShaped(Parse(rd, text).value);
      }
    }
  }

  lemma {:induction false} FilterShaped(c: string, q: MatchQuery)
    requires Shaped(q)
    ensures Shaped(ColumnFilter(c, q))
  {
  }

  lemma {:induction false} AtomShaped(q: MatchQuery)
    requires q.Term? || q.Phrase?
    ensures Shaped(q)
  {
  }

  // ------------------------------------------------------------------
  // Terms that come out of reading never hold a colon.
  // ------------------------------------------------------------------

  /** Every term of the query, at any depth, is free of colons. */
  ghost predicate Colonless(q: MatchQuery) {
    match q
    case Term(t) => NoColon(t)
    case Phrase(ts) => forall i :: 0 <= i < |ts| ==> NoColon(ts[i])
    case And(ps) => forall i :: 0 <= i < |ps| ==> Colonless(ps[i])
    case Or(ps) => forall i :: 0 <= i < |ps| ==> Colonless(ps[i])
    case ColumnFilter(_, p) => Colonless(p)
  }

  /** Lower-casing brings in no colon, and a colon is not alphanumeric. */
  ghost predicate ColonSafe(rd: Reader) {
    !rd.ab.alnum(':') && forall s :: NoColon(s) ==> NoColon(rd.lower(s))
  }

  lemma {:induction false} FlattenColonless(l: MatchQuery, r: MatchQuery)
    requires Colonless(l) && Colonless(r)
    ensures Colonless(FlattenOr(l, r)) && Colonless(FlattenAnd(l, r))
  {
  }

  lemma {:induction false} PhraseColonless(ab: Alphabet, s: string)
    requires !ab.alnum(':')
    ensures Colonless(Phrase(Terms(TokensOf(ab, s))))
  {
    hide Tokens, NoColon, Spelled;
    TokenChars(ab, Normalized(ab, s), |s|);
    var ps := TokensOf(ab, s);
    forall i | 0 <= i < |ps|
      ensures NoColon(ps[i].term)
    {
      SpelledColonless(ab, ps[i].term);
    }
  }

  lemma {:induction false} SpelledColonless(ab: Alphabet, s: string)
    requires Spelled(ab, s) && !ab.alnum(':')
    ensures NoColon(s)
  {
  }

  lemma {:induction false} ParseColonless(rd: Reader, text: string)
    requires Parse(rd, text).Some? && ColonSafe(rd)
    ensures Colonless(Parse(rd, text).value)
    decreases |text|
  {
    hide FlattenOr, FlattenAnd, Colonless, Quoted, FindKeyword, FindColon, Trim;
    var q := Trim(rd.space, text);
    var either, both, colon := FindKeyword(q, " OR "), FindKeyword(q, " AND "), FindColon(q);
    if either.Some? {
      ParseColonless(rd, q[..either.value]);
      ParseColonless(rd, q[either.value + 4..]);
      FlattenColonless(Parse(rd, q[..either.value]).value, Parse(rd, q[either.value + 4..]).value);
    } else if both.Some? {
      ParseColonless(rd, q[..both.value]);
      ParseColonless(rd, q[both.value + 5..]);
      FlattenColonless(Parse(rd, q[..both.value]).value, Parse(rd, q[both.value + 5..]).value);
    } else if q != [] && q[0] == '\"' && q[|q| - 1] == '\"' {
      PhraseColonless(rd.ab, q[1..|q| - 1]);
    } else if colon.Some? {
      ParseColonless(rd, q[colon.value + 1..]);
      FilterColonless(q[..colon.value], Parse(rd, q[colon.value + 1..]).value);
    } else {
      TermColonless(rd, q);
    }
  }

  lemma {:induction false} FilterColonless(c: string, q: MatchQuery)
    requires Colonless(q)
    ensures Colonless(ColumnFilter(c, q))
  {
  }

  lemma {:induction false} TermColonless(rd: Reader, q: string)
    requires ColonSafe(rd) && FindColon(q).None?
    ensures Colonless(Term(rd.lower(q)))
  {
    assert NoColon(q);
  }

  /** A quoted text without quotes inside reads as the phrase of its tokens. */
  lemma {:induction false} QuotedReads(rd: Reader, s: string)
    requires '\"' !in s && !rd.space('\"')
    ensures Parse(rd, "\"" + s + "\"") == Some(Phrase(Terms(TokensOf(rd.ab, s))))
  {
    hide TokensOf, FindKeyword, Quoted, KeywordAt;
    var q := "\"" + s + "\"";
    assert Trim(rd.space, q) == q;
    NoKeyword(q, " OR ");
    NoKeyword(q, " AND ");
    assert q[1..|q| - 1] == s;
  }

  lemma {:induction false} NoKeyword(q: string, kw: string)
    requires |q| >= 2 && q[0] == '\"' && q[|q| - 1] == '\"' && '\"' !in q[1..|q| - 1] && kw != "" && kw[0] == ' '
    ensures FindKeyword(q, kw).None?
  {
    hide FindKeyword, Quoted;
    forall i | 0 <= i < |q|
      ensures !KeywordAt(q, kw, i)
    {
      if i < |q| - 1 {
        InQuotes(q, i + 1);
      } else {
        assert q[i..][0] == '\"';
      }
    }
  }

  lemma {:induction false} InQuotes(q: string, n: nat)
    requires |q| >= 2 && q[0] == '\"' && '\"' !in q[1..|q| - 1] && 0 < n < |q|
    ensures Quoted(q, n)
  {
    if n > 1 {
      InQuotes(q, n - 1);
      assert q[n - 1] == q[1..|q| - 1][n - 2];
      assert q[n - 1] in q[1..|q| - 1];
    }
  }

  // ------------------------------------------------------------------
  // When reading panics.
  // ------------------------------------------------------------------

  /** What is left of a text after trimming and cutting at keywords outside quotes and at the first
      colon of what is not quoted. */
  function Pieces(rd: Reader, text: string): seq<string>
    decreases |text|
  {
    var q := Trim(rd.space, text);
    var either, both, colon := FindKeyword(q, " OR "), FindKeyword(q, " AND "), FindColon(q);
    if either.Some? then Pieces(rd, q[..either.value]) + Pieces(rd, q[either.value + 4..])
    else if both.Some? then Pieces(rd, q[..both.value]) + Pieces(rd, q[both.value + 5..])
    else if !InsideQuotes(q) && colon.Some? then Pieces(rd, q[colon.value + 1..])
    else [q]
  }

  predicate InsideQuotes(q: string) { q != "" && q[0] == '\"' && q[|q| - 1] == '\"' }

  /** Pieces are trimmed, hold no keyword outside quotes, and a piece that is not quoted no colon. */
  lemma {:induction false} PiecesAtomic(rd: Reader, text: string)
    ensures AllAtomic(rd, Pieces(rd, text))
    decreases |text|
  {
    hide FindKeyword, FindColon, Trim, Quoted, KeywordAt, Atomic, AllAtomic, InsideQuotes;
    var q := Trim(rd.space, text);
    var either, both, colon := FindKeyword(q, " OR "), FindKeyword(q, " AND "), FindColon(q);
    KeywordFits(q);
    if either.Some? {
      PiecesAtomic(rd, q[..either.value]);
      PiecesAtomic(rd, q[either.value + 4..]);
      BothAtomic(rd, Pieces(rd, q[..either.value]), Pieces(rd, q[either.value + 4..]));
    } else if both.Some? {
      PiecesAtomic(rd, q[..both.value]);
      PiecesAtomic(rd, q[both.value + 5..]);
      BothAtomic(rd, Pieces(rd, q[..both.value]), Pieces(rd, q[both.value + 5..]));
    } else if !InsideQuotes(q) && colon.Some? {
      PiecesAtomic(rd, q[colon.value + 1..]);
    } else {
      LastPiece(rd, text);
      OneAtomic(rd, q);
    }
  }

  ghost predicate AllAtomic(rd: Reader, ps: seq<string>) {
    ps != [] && forall i :: 0 <= i < |ps| ==> Atomic(rd, ps[i])
  }

  lemma {:induction false} BothAtomic(rd: Reader, a: seq<string>, b: seq<string>)
    requires AllAtomic(rd, a) && AllAtomic(rd, b)
    ensures AllAtomic(rd, a + b)
  {
    hide Atomic;
  }

  lemma {:induction false} OneAtomic(rd: Reader, q: string)
    requires Atomic(rd, q)
    ensures AllAtomic(rd, [q])
  {
    hide Atomic;
  }

  lemma {:induction false} LastPiece(rd: Reader, text: string)
    requires var q := Trim(rd.space, text);
      FindKeyword(q, " OR ").None? && FindKeyword(q, " AND ").None? && (InsideQuotes(q) || FindColon(q).None?)
    ensures Atomic(rd, Trim(rd.space, text))
  {
    hide FindKeyword, FindColon, Trim, Quoted, KeywordAt;
  }

  ghost predicate Atomic(rd: Reader, q: string) {
    && (q != "" ==> !rd.space(q[0]) && !rd.space(q[|q| - 1]))
    && (forall j :: 0 <= j < |q| ==> !KeywordAt(q, " OR ", j) && !KeywordAt(q, " AND ", j))
    && (!InsideQuotes(q) ==> forall j :: 0 <= j < |q| ==> q[j] != ':')
  }

  /** Reading panics if and only if some piece is a lone quote. */
  lemma {:induction false} PanicsExactly(rd: Reader, text: string)
    ensures Parse(rd, text).None? <==> "\"" in Pieces(rd, text)
    decreases |text|
  {
    hide FlattenOr, FlattenAnd, FindKeyword, FindColon, Trim, Quoted, KeywordAt, TokensOf;
    var q := Trim(rd.space, text);
    var either, both, colon := FindKeyword(q, " OR "), FindKeyword(q, " AND "), FindColon(q);
    KeywordFits(q);
    if either.Some? {
      PanicsExactly(rd, q[..either.value]);
      PanicsExactly(rd, q[either.value + 4..]);
    } else if both.Some? {
      PanicsExactly(rd, q[..both.value]);
      PanicsExactly(rd, q[both.value + 5..]);
    } else if InsideQuotes(q) {
      assert |q| == 1 ==> q == "\"";
    } else if colon.Some? {
      PanicsExactly(rd, q[colon.value + 1..]);
    } else {
      assert q != "\"";
    }
  }

  /** A query without quotes is always read. */
  lemma {:induction false} ReadsUnquoted(rd: Reader, text: string)
    requires '\"' !in text
    ensures Parse(rd, text).Some?
  {
    hide Parse;
    PanicsExactly(rd, text);
    PiecesUnquoted(rd, text);
  }

  lemma {:induction false} PiecesUnquoted(rd: Reader, text: string)
    requires '\"' !in text
    ensures "\"" !in Pieces(rd, text)
    decreases |text|
  {
    hide FindKeyword, FindColon, Trim, Quoted, KeywordAt, InsideQuotes;
    var q := Trim(rd.space, text);
    var either, both, colon := FindKeyword(q, " OR "), FindKeyword(q, " AND "), FindColon(q);
    KeywordFits(q);
    if either.Some? {
      PiecesUnquoted(rd, q[..either.value]);
      PiecesUnquoted(rd, q[either.value + 4..]);
    } else if both.Some? {
      PiecesUnquoted(rd, q[..both.value]);
      PiecesUnquoted(rd, q[both.value + 5..]);
    } else if !InsideQuotes(q) && colon.Some? {
      PiecesUnquoted(rd, q[colon.value + 1..]);
    } else {
      NotAQuote(q);
    }
  }

  lemma {:induction false} NotAQuote(q: string)
    requires '\"' !in q
    ensures "\"" !in [q]
  {
    assert "\""[0] == '\"';
  }

  /** Two quotes can panic, and one need not. */
  lemma {:induction false} QuotesAndPanics(rd: Reader)
    requires !rd.space('a') && !rd.space('\"')
    ensures Parse(rd, "\"").None? && Parse(rd, "a\":\"").None? && Parse(rd, "a\"").Some?
  {
    hide Parse;
    PanicsExactly(rd, "\"");
    PanicsExactly(rd, "a\":\"");
    PanicsExactly(rd, "a\"");
    FewPieces(rd);
  }

  lemma {:induction false} FewPieces(rd: Reader)
    requires !rd.space('a') && !rd.space('\"')
    ensures Pieces(rd, "\"") == ["\""] && Pieces(rd, "a\":\"") == ["\""] && Pieces(rd, "a\"") == ["a\""]
  {
    forall q: string | |q| <= 4 && q != "" && q[0] != ' '
      ensures FindKeyword(q, " OR ").None? && FindKeyword(q, " AND ").None?
    {
      KeywordFits(q);
    }
    assert Trim(rd.space, "\"") == "\"" && Trim(rd.space, "a\":\"") == "a\":\"" && Trim(rd.space, "a\"") == "a\"";
    assert FindColon("a\":\"") == Some(2) && "a\":\""[3..] == "\"";
    assert FindColon("a\"").None?;
  }

  // ------------------------------------------------------------------
  // Filters, words and quoted texts.
  // ------------------------------------------------------------------

  /** No keyword stands outside quotes. */
  ghost predicate NoKeywords(q: string) {
    forall j :: 0 <= j < |q| ==> !KeywordAt(q, " OR ", j) && !KeywordAt(q, " AND ", j)
  }

  /** Without keywords outside quotes, what stands before the first colon of a text that is not quoted
      is a column, and only words of that column are asked for what stands after it. */
  lemma {:induction false} ReadsFilter(rd: Reader, text: string, ws: seq<Word>, field: Option<string>, p: nat)
    requires var q := Trim(rd.space, text);
      NoKeywords(q) && !InsideQuotes(q) && p < |q| && q[p] == ':' && ':' !in q[..p]
    requires Parse(rd, text).Some?
    ensures var q := Trim(rd.space, text);
      && Parse(rd, q[p + 1..]).Some?
      && (Accepts(ws, rd.lower, None, Parse(rd, text).value) <==>
          Accepts(ws, rd.lower, Some(q[..p]), Parse(rd, q[p + 1..]).value))
      && (Accepts(ws, rd.lower, field, Parse(rd, text).value) <==>
          Accepts(ws, rd.lower, Joined(q[..p], field), Parse(rd, q[p + 1..]).value))
  {
    hide Trim, Quoted, KeywordAt, FlattenOr, FlattenAnd, TokensOf;
    var q := Trim(rd.space, text);
    FirstColon(q, p);
    assert FindKeyword(q, " OR ").None? && FindKeyword(q, " AND ").None?;
    Behind(ws, rd.lower, None, q[..p], Parse(rd, q[p + 1..]));
    Behind(ws, rd.lower, field, q[..p], Parse(rd, q[p + 1..]));
  }

  lemma {:induction false} FirstColon(q: string, p: nat)
    requires p < |q| && q[p] == ':' && ':' !in q[..p]
    ensures FindColon(q) == Some(p)
  {
    forall j | 0 <= j < p
      ensures q[j] != ':'
    {
      assert q[..p][j] in q[..p];
    }
  }

  lemma {:induction false} Behind(ws: seq<Word>, lower: string -> string, field: Option<string>, c: string,
      q: Option<MatchQuery>)
    ensures q.Some? ==>
      (Accepts(ws, lower, field, ColumnFilter(c, q.value)) <==> Accepts(ws, lower, Joined(c, field), q.value))
  {
  }

  /** A text that is neither quoted nor holds a colon or a keyword asks for one word. */
  lemma {:induction false} ReadsWord(rd: Reader, text: string, ws: seq<Word>)
    requires var q := Trim(rd.space, text); NoKeywords(q) && !InsideQuotes(q) && ':' !in q
    ensures Parse(rd, text).Some?
    ensures Accepts(ws, rd.lower, None, Parse(rd, text).value) <==>
      exists w :: w in ws && w.term == rd.lower(rd.lower(Trim(rd.space, text)))
    ensures forall c :: Accepts(ws, rd.lower, Some(c), Parse(rd, text).value) <==>
      exists w :: w in ws && w.column == c && w.term == rd.lower(rd.lower(Trim(rd.space, text)))
  {
    hide Trim, Quoted, KeywordAt, FlattenOr, FlattenAnd, TokensOf;
    var q := Trim(rd.space, text);
    assert FindColon(q).None?;
    assert FindKeyword(q, " OR ").None? && FindKeyword(q, " AND ").None?;
    assert Parse(rd, text) == Some(Term(rd.lower(q)));
    WordAsked(ws, rd.lower, None, rd.lower(q));
    forall c
      ensures Accepts(ws, rd.lower, Some(c), Parse(rd, text).value) <==>
        exists w :: w in ws && w.column == c && w.term == rd.lower(rd.lower(q))
    {
      WordAsked(ws, rd.lower, Some(c), rd.lower(q));
    }
  }

  /** A filter inside a filter asks for the column called inner:outer. */
  lemma {:induction false} ReadsNested(rd: Reader, text: string, ws: seq<Word>, p: nat, p': nat)
    requires var q := Trim(rd.space, text);
      && NoKeywords(q) && !InsideQuotes(q) && p < |q| && q[p] == ':' && ':' !in q[..p]
      && var r := Trim(rd.space, q[p + 1..]);
        && NoKeywords(r) && !InsideQuotes(r) && p' < |r| && r[p'] == ':' && ':' !in r[..p']
        && var s := Trim(rd.space, r[p' + 1..]); NoKeywords(s) && !InsideQuotes(s) && ':' !in s
    requires Parse(rd, text).Some?
    ensures var q := Trim(rd.space, text); var r := Trim(rd.space, q[p + 1..]);
      var s := Trim(rd.space, r[p' + 1..]);
      Accepts(ws, rd.lower, None, Parse(rd, text).value) <==>
        exists w :: w in ws && w.column == r[..p'] + ":" + q[..p] && w.term == rd.lower(rd.lower(s))
  {
    hide Trim, Parse, Accepts, InsideQuotes, NoKeywords;
    var q := Trim(rd.space, text);
    var r := Trim(rd.space, q[p + 1..]);
    ReadsFilter(rd, text, ws, None, p);
    ReadsFilter(rd, q[p + 1..], ws, Some(q[..p]), p');
    ReadsWord(rd, r[p' + 1..], ws);
  }

  lemma {:induction false} WordAsked(ws: seq<Word>, lower: string -> string, field: Option<string>, t: string)
    ensures Accepts(ws, lower, field, Term(t)) <==>
      exists w :: w in ws && w.term == lower(t) && (field.Some? ==> w.column == field.value)
  {
    if Accepts(ws, lower, field, Term(t)) {
      var x :| WordIs(ws, field, lower(t), x);
      assert ws[x] in ws;
    }
    if w :| w in ws && w.term == lower(t) && (field.Some? ==> w.column == field.value) {
      var x :| 0 <= x < |ws| && ws[x] == w;
      assert WordIs(ws, field, lower(t), x);
    }
  }

  /** The terms stand one after the other from `start` on. */
  ghost predicate InARow(ws: seq<Word>, lower: string -> string, terms: seq<string>, start: nat) {
    start + |terms| <= |ws| && forall i :: 0 <= i < |terms| ==> ws[start + i].term == lower(terms[i])
  }

  /** A quoted text asks for the tokens of what stands between its first and its last quote, one after
      the other; for none there is no row. */
  lemma {:induction false} ReadsQuoted(rd: Reader, text: string, ws: seq<Word>)
    requires var q := Trim(rd.space, text); NoKeywords(q) && InsideQuotes(q) && |q| >= 2
    ensures Parse(rd, text).Some?
    ensures var q := Trim(rd.space, text); var terms := Terms(TokensOf(rd.ab, q[1..|q| - 1]));
      Accepts(ws, rd.lower, None, Parse(rd, text).value) <==>
        terms != [] && exists start: nat :: InARow(ws, rd.lower, terms, start)
  {
    hide Trim, Quoted, KeywordAt, FlattenOr, FlattenAnd, TokensOf;
    var q := Trim(rd.space, text);
    assert FindKeyword(q, " OR ").None? && FindKeyword(q, " AND ").None?;
    var terms := Terms(TokensOf(rd.ab, q[1..|q| - 1]));
    assert Parse(rd, text) == Some(Phrase(terms));
    if terms != [] {
      forall start: nat
        ensures WordsAt(ws, rd.lower, None, terms, start) <==> InARow(ws, rd.lower, terms, start)
      {
        RowOfWords(ws, rd.lower, terms, start);
      }
    }
  }

  lemma {:induction false} RowOfWords(ws: seq<Word>, lower: string -> string, terms: seq<string>, start: nat)
    requires terms != []
    ensures WordsAt(ws, lower, None, terms, start) <==> InARow(ws, lower, terms, start)
  {
    if WordsAt(ws, lower, None, terms, start) {
      assert WordIs(ws, None, lower(terms[|terms| - 1]), start + (|terms| - 1));
      forall i | 0 <= i < |terms|
        ensures ws[start + i].term == lower(terms[i])
      {
        assert WordIs(ws, None, lower(terms[i]), start + i);
      }
    }
  }

  // ------------------------------------------------------------------
  // Texts without quotes and keywords.
  // ------------------------------------------------------------------

  /** Neither a quote nor a keyword anywhere. */
  ghost predicate Unmarked(s: string) {
    '\"' !in s && forall j :: 0 <= j < |s| ==> !(" OR " <= s[j..]) && !(" AND " <= s[j..])
  }

  lemma {:induction false} UnmarkedReads(s: string)
    requires Unmarked(s)
    ensures NoKeywords(s) && !InsideQuotes(s)
  {
    hide Quoted;
    if s != "" {
      assert s[0] in s;
    }
  }

  lemma {:induction false} TrimNothing(space: char -> bool, s: string)
    requires s != "" ==> !space(s[0]) && !space(s[|s| - 1])
    ensures Trim(space, s) == s
  {
  }

  /** Trimming takes spaces away from both ends and nothing else. */
  lemma {:induction false} TrimParts(space: char -> bool, s: string) returns (a: string, b: string)
    ensures s == a + Trim(space, s) + b
    ensures (forall c :: c in a ==> space(c)) && forall c :: c in b ==> space(c)
  {
    hide Trim;
    TrimStep(space, s);
    a, b := "", "";
    if s != "" && space(s[0]) {
      var rest, last := TrimParts(space, s[1..]);
      Framed([s[0]], rest, Trim(space, s), last, "");
      a, b := [s[0]] + rest, last;
    } else if s != "" && space(s[|s| - 1]) {
      var n := |s| - 1;
      var first, rest := TrimParts(space, s[..n]);
      Framed("", first, Trim(space, s), rest, [s[n]]);
      a, b := first, rest + [s[n]];
    }
  }

  lemma {:induction false} TrimStep(space: char -> bool, s: string)
    ensures if s != "" && space(s[0]) then Trim(space, s) == Trim(space, s[1..]) && s == [s[0]] + s[1..]
      else if s != "" && space(s[|s| - 1]) then
        Trim(space, s) == Trim(space, s[..|s| - 1]) && s == s[..|s| - 1] + [s[|s| - 1]]
      else Trim(space, s) == s == "" + s + ""
  {
  }

  lemma {:induction false} Framed(x: string, a: string, m: string, b: string, y: string)
    ensures x + (a + m + b) + y == (x + a) + m + (b + y)
    ensures x == "" ==> x + a == a
    ensures y == "" ==> b + y == b && x + (a + m + b) + y == x + (a + m + b)
  {
  }
}
