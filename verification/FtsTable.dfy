/** The full-text table: stored rows, and the index kept in step with them (src/fts/fts_table.rs). */
module FtsTables {
  import opened Keys
  import opened Wire
  import opened Records
  import opened Storage
  import opened BPlusTrees
  import opened FtsPostings
  import opened FtsIndex
  import opened Tokenizer
  import opened FtsQuery
  import opened FtsParse

  type Row = seq<string>

  /** The name of a column; a value beyond the last column has the empty name. */
  function ColumnName(columns: seq<string>, i: nat): string {
    if i < |columns| then columns[i] else ""
  }

  function Tagged(column: string, ps: seq<Piece>): (r: seq<Word>)
    ensures |r| == |ps| && forall i :: 0 <= i < |r| ==> r[i] == Word(column, ps[i].term)
  {
    seq(|ps|, i requires 0 <= i < |ps| => Word(column, ps[i].term))
  }

  /** The words of the first `n` values, column after column. */
  function WordsTo(ab: Alphabet, columns: seq<string>, row: Row, n: nat): seq<Word>
    requires n <= |row|
  {
    if n == 0 then []
    else WordsTo(ab, columns, row, n - 1) + Tagged(ColumnName(columns, n - 1), TokensOf(ab, row[n - 1]))
  }

  function Words(ab: Alphabet, columns: seq<string>, row: Row): seq<Word> {
    WordsTo(ab, columns, row, |row|)
  }

  ghost predicate Fits(ab: Alphabet, columns: seq<string>, row: Row) {
    2 * |Words(ab, columns, row)| < 0x1_0000_0000
  }

  const LAST_CHAR: char := '\U{10FFFF}'

  /** Index keys stay inside the range that removal scans. */
  ghost predicate Scannable(ab: Alphabet, columns: seq<string>) {
    && !ab.alnum(LAST_CHAR) && !ab.alnum(':')
    && forall i :: 0 <= i < |columns| && columns[i] != "" ==> columns[i][0] != LAST_CHAR
  }

  lemma {:induction false} FirstCharScanned(s: string)
    requires s != "" && s[0] != LAST_CHAR
    ensures Scanned(s)
  {
    assert LAST_TERM[0] == LAST_CHAR && s[0] < LAST_CHAR;
  }

  ghost predicate WordOk(ab: Alphabet, w: Word) {
    Spelled(ab, w.term) && (w.column != "" ==> w.column[0] != LAST_CHAR)
  }

  lemma {:induction false} WordsOk(ab: Alphabet, columns: seq<string>, row: Row, n: nat)
    requires n <= |row| && Scannable(ab, columns)
    ensures forall i :: 0 <= i < |WordsTo(ab, columns, row, n)| ==> WordOk(ab, WordsTo(ab, columns, row, n)[i])
  {
    hide Tokens, Spelled;
    if n > 0 {
      WordsOk(ab, columns, row, n - 1);
      TokenChars(ab, Normalized(ab, row[n - 1]), |row[n - 1]|);
    }
  }

  lemma {:induction false} WordsClean(ab: Alphabet, columns: seq<string>, row: Row)
    requires Scannable(ab, columns)
    ensures Clean(Words(ab, columns, row))
  {
    hide WordsTo, Spelled, NoColon;
    WordsOk(ab, columns, row, |row|);
    var ws := Words(ab, columns, row);
    forall i | 0 <= i < |ws|
      ensures NoColon(ws[i].term)
    {
      assert WordOk(ab, ws[i]);
      SpelledColonless(ab, ws[i].term);
    }
  }

  lemma {:induction false} WordScanned(ab: Alphabet, w: Word)
    requires WordOk(ab, w) && !ab.alnum(LAST_CHAR)
    ensures Scanned(w.term) && Scanned(w.column + ":" + w.term)
  {
    hide Scanned;
    assert IsCjk(w.term[0]) || IsWord(ab, w.term[0]);
    FirstCharScanned(w.term);
    FirstCharScanned(w.column + ":" + w.term);
  }

  lemma {:induction false} DoubledScanned(ab: Alphabet, ws: seq<Word>)
    requires !ab.alnum(LAST_CHAR) && forall i :: 0 <= i < |ws| ==> WordOk(ab, ws[i])
    ensures ScannedDoc(Doubled(ws))
  {
    hide Scanned, WordOk;
    if ws != [] {
      var n := |ws| - 1;
      DoubledScanned(ab, ws[..n]);
      WordScanned(ab, ws[n]);
    }
  }

  /** What the index must hold of the stored rows. */
  ghost predicate Mirrors(docs: Docs, ab: Alphabet, columns: seq<string>, rows: map<U64, Row>) {
    docs.Keys == rows.Keys && forall d ::
        d in rows ==> docs[d] == Doubled(Words(ab, columns, rows[d])) && Fits(ab, columns, rows[d])
  }

  ghost predicate Satisfies(rd: Reader, columns: seq<string>, row: Row, q: MatchQuery) {
    Accepts(Words(rd.ab, columns, row), rd.lower, None, q)
  }

  /** The names of column filters are such that lower-casing a filtered term leaves them alone. */
  ghost predicate LowerFields(lower: string -> string, field: Option<string>, q: MatchQuery)
    decreases q
  {
    match q
    case Term(t) => lower(Pre(field) + t) == Pre(field) + lower(t)
    case Phrase(ts) => forall i :: 0 <= i < |ts| ==> lower(Pre(field) + ts[i]) == Pre(field) + lower(ts[i])
    case And(ps) => forall i :: 0 <= i < |ps| ==> LowerFields(lower, field, ps[i])
    case Or(ps) => forall i :: 0 <= i < |ps| ==> LowerFields(lower, field, ps[i])
    case ColumnFilter(c, p) => LowerFields(lower, Joined(c, field), p)
  }

  lemma {:induction false} PlainParsed(rd: Reader, field: Option<string>, q: MatchQuery)
    requires ColonSafe(rd) && Colonless(q) && LowerFields(rd.lower, field, q)
    ensures Plain(rd.lower, field, q)
    decreases q
  {
    hide NoColon, Pre, Joined;
    match q {
      case Term(t) =>
      case Phrase(ts) =>
      case And(ps) =>
        forall i | 0 <= i < |ps|
          ensures Plain(rd.lower, field, ps[i])
        {
          PlainParsed(rd, field, ps[i]);
        }
      case Or(ps) =>
        forall i | 0 <= i < |ps|
          ensures Plain(rd.lower, field, ps[i])
        {
          PlainParsed(rd, field, ps[i]);
        }
      case ColumnFilter(c, p) => PlainParsed(rd, Joined(c, field), p);
    }
  }

  // ------------------------------------------------------------------
  // Termination of query evaluation: a filter is pushed into the terms, which keeps the size.
  // ------------------------------------------------------------------

  ghost function Size(q: MatchQuery): nat
    decreases q, 1 + (if q.And? || q.Or? then |q.parts| else 0)
  {
    match q
    case Term(_) => 1
    case Phrase(_) => 1
    case And(ps) => 1 + SizeTo(q, |ps|)
    case Or(ps) => 1 + SizeTo(q, |ps|)
    case ColumnFilter(_, p) => 1 + Size(p)
  }

  ghost function SizeTo(q: MatchQuery, n: nat): nat
    requires (q.And? || q.Or?) && n <= |q.parts|
    decreases q, n
  {
    if n == 0 then 0 else SizeTo(q, n - 1) + Size(q.parts[n - 1])
  }

  lemma {:induction false} PartSmaller(q: MatchQuery, n: nat, i: nat)
    requires (q.And? || q.Or?) && i < n <= |q.parts|
    ensures Size(q.parts[i]) <= SizeTo(q, n)
    ensures n == |q.parts| ==> Size(q.parts[i]) < Size(q)
  {
    if i < n - 1 {
      PartSmaller(q, n - 1, i);
    }
  }

  lemma {:induction false} PrefixSize(q: MatchQuery, col: string)
    ensures Size(PrefixQuery(q, col)) == Size(q)
    decreases q, 1 + (if q.And? || q.Or? then |q.parts| else 0)
  {
    if q.And? || q.Or? {
      PrefixSizeTo(q, col, |q.parts|);
    } else if q.ColumnFilter? {
      PrefixSize(q.query, col);
    }
  }

  lemma {:induction false} PrefixSizeTo(q: MatchQuery, col: string, n: nat)
    requires (q.And? || q.Or?) && n <= |q.parts|
    ensures PrefixQuery(q, col).And? || PrefixQuery(q, col).Or?
    ensures |PrefixQuery(q, col).parts| == |q.parts| && SizeTo(PrefixQuery(q, col), n) == SizeTo(q, n)
    decreases q, n
  {
    if n > 0 {
      PrefixSizeTo(q, col, n - 1);
      PrefixSize(q.parts[n - 1], col);
      assert PrefixQuery(q, col).parts[n - 1] == PrefixQuery(q.parts[n - 1], col);
    }
  }

  // ------------------------------------------------------------------
  // Histories.
  // ------------------------------------------------------------------

  datatype Change = Add(row: Row) | AddAt(rowid: U64, row: Row) | Replace(rowid: U64, row: Row) | Remove(rowid: U64)

  datatype State = State(rows: map<U64, Row>, next: nat)

  function After(s: State, c: Change): State {
    match c
    case Add(row) => if s.next < 0x1_0000_0000_0000_0000 then State(s.rows[s.next := row], s.next + 1) else s
    case AddAt(rowid, row) => State(s.rows[rowid := row], if rowid >= s.next then rowid + 1 else s.next)
    case Replace(rowid, row) => State(s.rows[rowid := row], s.next)
    case Remove(rowid) => State(s.rows - {rowid}, s.next)
  }

  function AfterAll(s: State, cs: seq<Change>): State
    decreases cs
  {
    if cs == [] then s else AfterAll(After(s, cs[0]), cs[1..])
  }

  /** Row numbers and the index's counters do not overflow. */
  ghost predicate PossibleNow(ab: Alphabet, columns: seq<string>, s: State, c: Change) {
    && (!c.Remove? ==> |s.rows| + 1 < 0x1_0000_0000 && Fits(ab, columns, c.row))
    && (c.Add? ==> s.next + 1 < 0x1_0000_0000_0000_0000)
    && (c.AddAt? ==> c.rowid + 1 < 0x1_0000_0000_0000_0000)
  }

  ghost predicate Possible(ab: Alphabet, columns: seq<string>, s: State, cs: seq<Change>)
    decreases cs
  {
    cs != [] ==> PossibleNow(ab, columns, s, cs[0]) && Possible(ab, columns, After(s, cs[0]), cs[1..])
  }

  class FtsTable {
    const columns: seq<string>
    const rd: Reader
    const index: InvertedIndex
    var rows: map<U64, Row>
    var nextRowid: U64

    ghost predicate Valid()
      reads this, index, index.tree, index.store
    {
      && index.Valid() && index.lower == rd.lower && Scannable(rd.ab, columns) && ColonSafe(rd)
      && Mirrors(index.docs, rd.ab, columns, rows)
    }

    constructor (columns: seq<string>, rd: Reader)
      requires Scannable(rd.ab, columns) && ColonSafe(rd)
      ensures Valid() && rows == map[] && nextRowid == 1 && this.columns == columns && this.rd == rd
      ensures fresh(index) && fresh(index.tree) && fresh(index.store)
    {
      this.columns := columns;
      this.rd := rd;
      index := new InvertedIndex(rd.lower);
      rows, nextRowid := map[], 1;
    }

    /** Room for one more row: the 32-bit counters of the index do not overflow. */
    ghost predicate Room(row: Row)
      reads this
    {
      |rows| + 1 < 0x1_0000_0000 && Fits(rd.ab, columns, row)
    }

    method Insert(row: Row) returns (rowid: U64)
      requires Valid() && Room(row) && nextRowid + 1 < 0x1_0000_0000_0000_0000
      modifies this, index, index.tree, index.store
      ensures Valid() && rowid == old(nextRowid) && rows == old(rows)[rowid := row] && nextRowid == rowid + 1
    {
      hide Scannable, ColonSafe, Mirrors, Fits, InvertedIndex.Valid;
      rowid := nextRowid;
      nextRowid := nextRowid + 1;
      MirrorSize(index.docs, rd.ab, columns, rows);
      IndexRow(rowid, row);
      MirrorPut(index.docs, old(index.docs), rd.ab, columns, rows, rowid, row);
      rows := rows[rowid := row];
    }

    method InsertWithId(rowid: U64, row: Row)
      requires Valid() && Room(row) && rowid + 1 < 0x1_0000_0000_0000_0000
      modifies this, index, index.tree, index.store
      ensures Valid() && rows == old(rows)[rowid := row]
      ensures nextRowid == if rowid >= old(nextRowid) then rowid + 1 else old(nextRowid)
    {
      hide Scannable, ColonSafe, Mirrors, Fits, InvertedIndex.Valid;
      MirrorSize(index.docs, rd.ab, columns, rows);
      IndexRow(rowid, row);
      MirrorPut(index.docs, old(index.docs), rd.ab, columns, rows, rowid, row);
      rows := rows[rowid := row];
      if rowid >= nextRowid {
        nextRowid := rowid + 1;
      }
    }

    method Update(rowid: U64, row: Row)
      requires Valid() && Room(row)
      modifies this, index, index.tree, index.store
      ensures Valid() && rows == old(rows)[rowid := row] && nextRowid == old(nextRowid)
    {
      hide Scannable, ColonSafe, Fits, InvertedIndex.Valid, Doubled, Mirrors;
      MirrorSize(index.docs, rd.ab, columns, rows);
      MirrorDrop(index.docs, rd.ab, columns, rows, rowid);
      index.RemoveDocument(rowid);
      ghost var fewer, docs := rows - {rowid}, index.docs;
      IndexRow(rowid, row);
      MirrorPut(index.docs, docs, rd.ab, columns, fewer, rowid, row);
      assert fewer[rowid := row] == rows[rowid := row];
      rows := rows[rowid := row];
    }

    method Delete(rowid: U64)
      requires Valid()
      modifies this, index, index.tree, index.store
      ensures Valid() && rows == old(rows) - {rowid} && nextRowid == old(nextRowid)
    {
      hide Scannable, ColonSafe, Fits, InvertedIndex.Valid, Doubled, Mirrors;
      MirrorDrop(index.docs, rd.ab, columns, rows, rowid);
      index.RemoveDocument(rowid);
      rows := rows - {rowid};
    }

    method Do(change: Change)
      requires Valid() && PossibleNow(rd.ab, columns, State(rows, nextRowid), change)
      modifies this, index, index.tree, index.store
      ensures Valid() && State(rows, nextRowid) == After(old(State(rows, nextRowid)), change)
    {
      hide Valid, Fits;
      match change {
        case Add(row) => var _ := Insert(row);
        case AddAt(rowid, row) => InsertWithId(rowid, row);
        case Replace(rowid, row) => Update(rowid, row);
        case Remove(rowid) => Delete(rowid);
      }
    }

    /** Any history of changes: the stored rows are those of the plain map, and the index is in step. */
    method Run(changes: seq<Change>)
      requires Valid() && Possible(rd.ab, columns, State(rows, nextRowid), changes)
      modifies this, index, index.tree, index.store
      ensures Valid() && State(rows, nextRowid) == AfterAll(old(State(rows, nextRowid)), changes)
    {
      hide Valid, After, PossibleNow;
      assert changes[0..] == changes;
      for i := 0 to |changes|
        invariant Valid() && Possible(rd.ab, columns, State(rows, nextRowid), changes[i..])
        invariant AfterAll(old(State(rows, nextRowid)), changes) == AfterAll(State(rows, nextRowid), changes[i..])
      {
        assert changes[i..][0] == changes[i] && changes[i..][1..] == changes[i + 1..];
        Do(changes[i]);
      }
    }

    /** Hand the words of the row to the index, numbered through the whole row. */
    method IndexRow(rowid: U64, row: Row)
      requires index.Valid() && Scannable(rd.ab, columns) && Fits(rd.ab, columns, row)
      requires |index.docs| + 1 < 0x1_0000_0000
      modifies index, index.tree, index.store
      ensures index.Valid() && index.docs == old(index.docs)[rowid := Doubled(Words(rd.ab, columns, row))]
    {
      hide InvertedIndex.Valid, ScannedDoc, WordOk;
      var tokens := RowTokens(row);
      WordsOk(rd.ab, columns, row, |row|);
      DoubledScanned(rd.ab, Words(rd.ab, columns, row));
      DoubledSize(Words(rd.ab, columns, row));
      index.IndexDocument(rowid, tokens);
    }

    method RowTokens(row: Row) returns (all: seq<Token>)
      ensures all == Doubled(Words(rd.ab, columns, row))
    {
      hide Doubled, TokensOf;
      all := [];
      DoubledNone();
      var number := 0;
      for i := 0 to |row|
        invariant number == |WordsTo(rd.ab, columns, row, i)| && all == Doubled(WordsTo(rd.ab, columns, row, i))
      {
        var ps := Tokenize(rd.ab, row[i]);
        all, number := AddColumn(ColumnName(columns, i), ps, all, number, WordsTo(rd.ab, columns, row, i));
      }
    }

    method AddColumn(column: string, ps: seq<Piece>, before: seq<Token>, first: nat, ghost words: seq<Word>)
      returns (all: seq<Token>, number: nat)
      requires before == Doubled(words) && first == |words|
      ensures all == Doubled(words + Tagged(column, ps)) && number == first + |ps|
    {
      hide Doubled;
      all, number := before, first;
      ghost var more := Tagged(column, ps);
      assert words + more[..0] == words;
      for j := 0 to |ps|
        invariant number == first + j && all == Doubled(words + more[..j])
      {
        DoubledMore(words + more[..j], more[j]);
        assert words + more[..j] + [more[j]] == words + more[..j + 1];
        all := all + [Token(column + ":" + ps[j].term, AsU32(number)), Token(ps[j].term, AsU32(number))];
        number := number + 1;
      }
      assert more[..|ps|] == more;
    }

    /** The rows found: those in which the terms of the query, each lower-cased together with its column
        prefix, are words; which are the rows that satisfy the query by the naive evaluator over the
        stored values if lower-casing leaves the names of its column filters alone. */
    method Search(query: string) returns (found: Option<map<U64, Row>>)
      requires Valid()
      ensures found.None? <==> Parse(rd, query).None?
      ensures found.Some? ==>
        found.value == map d | d in rows
            && LooksUp(Words(rd.ab, columns, rows[d]), rd.lower, "", Parse(rd, query).value) :: rows[d]
      ensures found.Some? && LowerFields(rd.lower, None, Parse(rd, query).value) ==>
        found.value == map d | d in rows && Satisfies(rd, columns, rows[d], Parse(rd, query).value) :: rows[d]
    {
      hide Scannable, ColonSafe, Mirrors, InvertedIndex.Valid, LowerFields, TokenAccepts, Satisfies, LooksUp;
      var q := ParseMatchQuery(rd, query);
      if q.None? {
        return None;
      }
      ParseColonless(rd, query);
      var ids := ExecuteQuery(q.value);
      LookedUp(index.docs, rd, columns, rows, q.value);
      if LowerFields(rd.lower, None, q.value) {
        Found(index.docs, rd, columns, rows, q.value);
      }
      return Some(map d | d in ids && d in rows :: rows[d]);
    }

    /** Searching for a quoted ideographic string finds every row in one of whose values it occurs. */
    method SearchIdeographs(q: string) returns (found: map<U64, Row>)
      requires Valid() && |q| >= 2 && AllCjk(Normalized(rd.ab, q)) && '\"' !in q && !rd.space('\"')
      requires forall i :: 0 <= i < |Terms(TokensOf(rd.ab, q))| ==>
        rd.lower(Terms(TokensOf(rd.ab, q))[i]) == Terms(TokensOf(rd.ab, q))[i]
      ensures forall d, c, a :: d in rows && 0 <= c < |rows[d]| && 0 <= a && OccursAt(q, rows[d][c], a) ==>
        d in found && found[d] == rows[d]
    {
      hide Valid, TokensOf, OccursAt, AllCjk, Satisfies, LowerFields, LooksUp;
      QuotedReads(rd, q);
      PhraseFields(rd.lower, Terms(TokensOf(rd.ab, q)));
      var r := Search("\"" + q + "\"");
      found := r.value;
      forall d, c, a | d in rows && 0 <= c < |rows[d]| && 0 <= a && OccursAt(q, rows[d][c], a)
        ensures Satisfies(rd, columns, rows[d], Phrase(Terms(TokensOf(rd.ab, q))))
      {
        CjkPhraseFound(rd, columns, rows[d], c, q, a);
      }
    }

    /** Searching for one bare word: exactly the rows in one of whose values it is a token. */
    method SearchWord(word: string) returns (found: map<U64, Row>)
      requires Valid() && Unmarked(word) && ':' !in word
      requires word != "" ==> !rd.space(word[0]) && !rd.space(word[|word| - 1])
      ensures forall d :: d in found <==> d in rows && exists c: nat ::
        c < |rows[d]| && HasToken(rd.ab, rows[d][c], rd.lower(rd.lower(word)))
      ensures forall d :: d in found ==> found[d] == rows[d]
    {
      hide Valid, Unmarked, LooksUp, Satisfies, LowerFields, HasToken;
      TrimNothing(rd.space, word);
      UnmarkedReads(word);
      WordParsed(rd, word);
      var r := Search(word);
      found := r.value;
      forall d | d in rows
        ensures Satisfies(rd, columns, rows[d], Parse(rd, word).value) <==>
          exists c: nat :: c < |rows[d]| && HasToken(rd.ab, rows[d][c], rd.lower(rd.lower(word)))
      {
        WordFound(rd, columns, rows[d], word);
      }
    }

    /** Searching for a quoted text: exactly the rows that have its tokens one after the other. */
    method SearchQuoted(text: string) returns (found: map<U64, Row>)
      requires Valid() && '\"' !in text && !rd.space('\"')
      ensures forall d :: d in found <==> d in rows && Terms(TokensOf(rd.ab, text)) != [] && exists start: nat ::
        InARow(Words(rd.ab, columns, rows[d]), rd.lower, Terms(TokensOf(rd.ab, text)), start)
      ensures forall d :: d in found ==> found[d] == rows[d]
    {
      hide Valid, LooksUp, Satisfies, LowerFields, TokensOf, InARow, Words;
      QuotedReads(rd, text);
      PhraseFields(rd.lower, Terms(TokensOf(rd.ab, text)));
      var r := Search("\"" + text + "\"");
      found := r.value;
      forall d | d in rows
        ensures Satisfies(rd, columns, rows[d], Phrase(Terms(TokensOf(rd.ab, text)))) <==>
          Terms(TokensOf(rd.ab, text)) != [] && exists start: nat ::
            InARow(Words(rd.ab, columns, rows[d]), rd.lower, Terms(TokensOf(rd.ab, text)), start)
      {
        PhraseFound(rd, columns, rows[d], Terms(TokensOf(rd.ab, text)));
      }
    }

    /** Searching for a word in a column: exactly the rows in whose value of that column it is a token,
        if lower-casing the term behind the column's name leaves the name alone. */
    method SearchColumn(column: string, word: string) returns (found: map<U64, Row>)
      requires Valid() && Unmarked(column + ":" + word) && ':' !in column && ':' !in word && Unmarked(word)
      requires column != "" && !rd.space(column[0])
      requires word != "" && !rd.space(word[0]) && !rd.space(word[|word| - 1])
      requires rd.lower(column + ":" + rd.lower(word)) == column + ":" + rd.lower(rd.lower(word))
      ensures forall d :: d in found <==> d in rows && exists c: nat ::
        c < |rows[d]| && c < |columns| && columns[c] == column
        && HasToken(rd.ab, rows[d][c], rd.lower(rd.lower(word)))
      ensures forall d :: d in found ==> found[d] == rows[d]
    {
      hide Valid, Unmarked, LooksUp, Satisfies, HasToken;
      ColumnParsed(rd, column, word);
      var r := Search(column + ":" + word);
      found := r.value;
      forall d | d in rows
        ensures Satisfies(rd, columns, rows[d], Parse(rd, column + ":" + word).value) <==>
          exists c: nat ::
            c < |rows[d]| && c < |columns| && columns[c] == column
            && HasToken(rd.ab, rows[d][c], rd.lower(rd.lower(word)))
      {
        ColumnFound(rd, columns, rows[d], column, word);
      }
    }

    method ExecuteQuery(q: MatchQuery) returns (ids: set<U64>)
      requires index.Valid()
      ensures ids == Answer(index.docs, index.lower, q)
      decreases Size(q)
    {
      hide InvertedIndex.Valid, Contains, PhraseIn, Size;
      match q {
        case Term(t) =>
          assert "" + t == t;
          ids := index.SearchTerm(t);
        case Phrase(ts) =>
          NoPrefix(ts);
          ids := index.SearchPhrase(ts);
        case And(ps) => ids := ExecuteAnd(q);
        case Or(ps) => ids := ExecuteOr(q);
        case ColumnFilter(c, p) =>
          PrefixSize(p, c);
          FilterSmaller(q);
          ids := ExecuteQuery(PrefixQuery(p, c));
          FilterAnswer(index.docs, index.lower, c, p);
      }
    }

    method ExecuteAnd(q: MatchQuery) returns (ids: set<U64>)
      requires index.Valid() && q.And?
      ensures ids == Answer(index.docs, index.lower, q)
      decreases Size(q), 0
    {
      hide InvertedIndex.Valid, TokenAccepts, Size;
      var acc: Option<set<U64>> := None;
      for n := 0 to |q.parts|
        invariant n == 0 <==> acc.None?
        invariant n > 0 ==> acc.value == Answer(index.docs, index.lower, And(q.parts[..n]))
      {
        PartSmaller(q, |q.parts|, n);
        var here := ExecuteQuery(q.parts[n]);
        AndStep(index.docs, index.lower, q.parts, n);
        acc := Some(if acc.None? then here else acc.value * here);
      }
      assert q.parts[..|q.parts|] == q.parts;
      AndNone(index.docs, index.lower);
      return if acc.None? then {} else acc.value;
    }

    method ExecuteOr(q: MatchQuery) returns (ids: set<U64>)
      requires index.Valid() && q.Or?
      ensures ids == Answer(index.docs, index.lower, q)
      decreases Size(q), 0
    {
      hide InvertedIndex.Valid, TokenAccepts, Size;
      ids := {};
      OrNone(index.docs, index.lower);
      for n := 0 to |q.parts|
        invariant ids == Answer(index.docs, index.lower, Or(q.parts[..n]))
      {
        PartSmaller(q, |q.parts|, n);
        var here := ExecuteQuery(q.parts[n]);
        OrStep(index.docs, index.lower, q.parts, n);
        ids := ids + here;
      }
      assert q.parts[..|q.parts|] == q.parts;
    }
  }

  /** The documents whose tokens satisfy the query. */
  ghost function Answer(docs: Docs, lower: string -> string, q: MatchQuery): set<U64> {
    set d | d in docs && TokenAccepts(docs[d], lower, "", q)
  }

  lemma {:induction false} NoPrefix(ts: seq<string>)
    ensures Prefixed("", ts) == ts
  {
    forall i | 0 <= i < |ts|
      ensures "" + ts[i] == ts[i]
    {
    }
  }

  lemma {:induction false} FilterSmaller(q: MatchQuery)
    requires q.ColumnFilter?
    ensures Size(q.query) < Size(q)
  {
  }

  lemma {:induction false} FilterAnswer(docs: Docs, lower: string -> string, c: string, p: MatchQuery)
    ensures Answer(docs, lower, PrefixQuery(p, c)) == Answer(docs, lower, ColumnFilter(c, p))
  {
    forall d | d in docs
      ensures TokenAccepts(docs[d], lower, "", PrefixQuery(p, c))
          <==> TokenAccepts(docs[d], lower, "", ColumnFilter(c, p))
    {
      PrefixMeaning(docs[d], lower, "", p, c);
      assert "" + (c + ":") == c + ":" + "";
    }
  }

  lemma {:induction false} AndNone(docs: Docs, lower: string -> string)
    ensures Answer(docs, lower, And([])) == {}
  {
  }

  lemma {:induction false} OrNone(docs: Docs, lower: string -> string)
    ensures forall ps :: ps == [] ==> Answer(docs, lower, Or(ps)) == {}
  {
  }

  lemma {:induction false} AndStep(docs: Docs, lower: string -> string, ps: seq<MatchQuery>, n: nat)
    requires n < |ps|
    ensures n > 0 ==>
        Answer(docs, lower, And(ps[..n + 1])) == Answer(docs, lower, And(ps[..n])) * Answer(docs, lower, ps[n])
    ensures n == 0 ==> Answer(docs, lower, And(ps[..n + 1])) == Answer(docs, lower, ps[n])
  {
    assert ps[..n + 1] == ps[..n] + [ps[n]];
    forall d | d in docs
      ensures TokenAccepts(docs[d], lower, "", And(ps[..n + 1])) <==>
        (n > 0 ==> TokenAccepts(docs[d], lower, "", And(ps[..n]))) && TokenAccepts(docs[d], lower, "", ps[n])
    {
      TokenAnd(docs[d], lower, ps[..n], ps[n]);
    }
  }

  lemma {:induction false} TokenAnd(ts: seq<Token>, lower: string -> string, ps: seq<MatchQuery>, q: MatchQuery)
    ensures TokenAccepts(ts, lower, "", And(ps + [q])) <==>
      (ps != [] ==> TokenAccepts(ts, lower, "", And(ps))) && TokenAccepts(ts, lower, "", q)
  {
    hide Contains, PhraseIn;
    var all := ps + [q];
    assert all[|ps|] == q;
    if TokenAccepts(ts, lower, "", And(all)) {
      forall i | 0 <= i < |ps|
        ensures TokenAccepts(ts, lower, "", ps[i])
      {
        assert all[i] == ps[i];
      }
    }
  }

  lemma {:induction false} OrStep(docs: Docs, lower: string -> string, ps: seq<MatchQuery>, n: nat)
    requires n < |ps|
    ensures Answer(docs, lower, Or(ps[..n + 1])) == Answer(docs, lower, Or(ps[..n])) + Answer(docs, lower, ps[n])
  {
    assert ps[..n + 1] == ps[..n] + [ps[n]];
    forall d | d in docs
      ensures TokenAccepts(docs[d], lower, "", Or(ps[..n + 1])) <==>
        TokenAccepts(docs[d], lower, "", Or(ps[..n])) || TokenAccepts(docs[d], lower, "", ps[n])
    {
      TokenOr(docs[d], lower, ps[..n], ps[n]);
    }
  }

  lemma {:induction false} TokenOr(ts: seq<Token>, lower: string -> string, ps: seq<MatchQuery>, q: MatchQuery)
    ensures TokenAccepts(ts, lower, "", Or(ps + [q])) <==>
      TokenAccepts(ts, lower, "", Or(ps)) || TokenAccepts(ts, lower, "", q)
  {
    hide Contains, PhraseIn;
    var all := ps + [q];
    assert all[|ps|] == q;
    if i :| 0 <= i < |ps| && TokenAccepts(ts, lower, "", ps[i]) {
      assert all[i] == ps[i];
    }
  }

  lemma {:induction false} DoubledNone()
    ensures Doubled([]) == []
  {
  }

  lemma {:induction false} DoubledMore(ws: seq<Word>, w: Word)
    ensures Doubled(ws + [w]) == Doubled(ws) + [Token(w.column + ":" + w.term, AsU32(|ws|)), Token(w.term, AsU32(|ws|))]
  {
    assert (ws + [w])[..|ws|] == ws;
  }

  lemma {:induction false} MirrorSize(docs: Docs, ab: Alphabet, columns: seq<string>, rows: map<U64, Row>)
    requires Mirrors(docs, ab, columns, rows)
    ensures |docs| == |rows|
  {
    hide Doubled, Words, Fits;
    assert |docs| == |docs.Keys| && |rows| == |rows.Keys|;
  }

  lemma {:induction false} MirrorDrop(docs: Docs, ab: Alphabet, columns: seq<string>, rows: map<U64, Row>, rowid: U64)
    requires Mirrors(docs, ab, columns, rows)
    ensures Mirrors(docs - {rowid}, ab, columns, rows - {rowid})
  {
    hide Doubled, Words, Fits;
  }

  lemma {:induction false} MirrorPut(docs': Docs, docs: Docs, ab: Alphabet, columns: seq<string>, rows: map<U64, Row>,
      rowid: U64, row: Row)
    requires Mirrors(docs, ab, columns, rows) && Fits(ab, columns, row)
    requires docs' == docs[rowid := Doubled(Words(ab, columns, row))]
    ensures Mirrors(docs', ab, columns, rows[rowid := row])
  {
    hide Doubled, Words, Fits;
  }

  lemma {:induction false} LookedUp(docs: Docs, rd: Reader, columns: seq<string>, rows: map<U64, Row>, q: MatchQuery)
    requires Mirrors(docs, rd.ab, columns, rows)
    ensures Answer(docs, rd.lower, q) == set d | d in rows && LooksUp(Words(rd.ab, columns, rows[d]), rd.lower, "", q)
  {
    hide Doubled, Words, TokenAccepts, LooksUp;
    forall d | d in rows
      ensures TokenAccepts(docs[d], rd.lower, "", q) <==> LooksUp(Words(rd.ab, columns, rows[d]), rd.lower, "", q)
    {
      AlwaysLooksUp(Words(rd.ab, columns, rows[d]), rd.lower, "", q);
    }
  }

  /** A phrase without a filter has no column name to change. */
  lemma {:induction false} PhraseFields(lower: string -> string, terms: seq<string>)
    ensures LowerFields(lower, None, Phrase(terms))
  {
    forall i | 0 <= i < |terms|
      ensures lower("" + terms[i]) == "" + lower(terms[i])
    {
      assert "" + terms[i] == terms[i] && "" + lower(terms[i]) == lower(terms[i]);
    }
  }

  /** The index's answer is the naive evaluator's. */
  lemma {:induction false} Found(docs: Docs, rd: Reader, columns: seq<string>, rows: map<U64, Row>, q: MatchQuery)
    requires Mirrors(docs, rd.ab, columns, rows) && Scannable(rd.ab, columns) && ColonSafe(rd)
    requires Colonless(q) && LowerFields(rd.lower, None, q)
    ensures Answer(docs, rd.lower, q) == set d | d in rows && Satisfies(rd, columns, rows[d], q)
  {
    hide Doubled, Words, TokenAccepts, Accepts, Scannable, ColonSafe, Colonless, LowerFields, Plain, Clean;
    PlainParsed(rd, None, q);
    forall d | d in rows
      ensures TokenAccepts(docs[d], rd.lower, "", q) <==> Satisfies(rd, columns, rows[d], q)
    {
      var ws := Words(rd.ab, columns, rows[d]);
      WordsClean(rd.ab, columns, rows[d]);
      Agree(ws, rd.lower, None, q);
    }
  }

  // ------------------------------------------------------------------
  // Ideographic phrases.
  // ------------------------------------------------------------------

  lemma {:induction false} WordsPrefix(ab: Alphabet, columns: seq<string>, row: Row, m: nat, n: nat)
    requires m <= n <= |row|
    ensures WordsTo(ab, columns, row, m) <= WordsTo(ab, columns, row, n)
  {
    hide TokensOf;
    if m < n {
      WordsPrefix(ab, columns, row, m, n - 1);
    }
  }

  /** An ideographic string of length two or more that occurs in a value of a row is found as a
      phrase in that row, with or without a filter on that column. */
  lemma {:induction false} CjkPhraseFound(rd: Reader, columns: seq<string>, row: Row, c: nat, q: string, a: nat)
    requires c < |row| && OccursAt(q, row[c], a) && |q| >= 2 && AllCjk(Normalized(rd.ab, q))
    requires forall i ::
        0 <= i < |Terms(TokensOf(rd.ab, q))| ==> rd.lower(Terms(TokensOf(rd.ab, q))[i]) == Terms(TokensOf(rd.ab, q))[i]
    ensures Satisfies(rd, columns, row, Phrase(Terms(TokensOf(rd.ab, q))))
    ensures Satisfies(rd, columns, row, ColumnFilter(ColumnName(columns, c), Phrase(Terms(TokensOf(rd.ab, q)))))
  {
    hide TokensOf, OccursAt, AllCjk, WordIs;
    var terms := Terms(TokensOf(rd.ab, q));
    var k := CjkContiguous(rd.ab, row[c], q, a);
    WordsPrefix(rd.ab, columns, row, c + 1, |row|);
    var ws := Words(rd.ab, columns, row);
    var start := |WordsTo(rd.ab, columns, row, c)| + k;
    var own := Tagged(ColumnName(columns, c), TokensOf(rd.ab, row[c]));
    assert WordsTo(rd.ab, columns, row, c + 1) == WordsTo(rd.ab, columns, row, c) + own;
    forall i | 0 <= i < |terms|
      ensures start + i < |ws| && ws[start + i] == Word(ColumnName(columns, c), terms[i])
    {
      assert Terms(TokensOf(rd.ab, row[c]))[k..k + |terms|][i] == terms[i];
      assert own[k + i] == Word(ColumnName(columns, c), terms[i]);
    }
    PhraseHolds(ws, rd.lower, None, terms, start, ColumnName(columns, c));
    PhraseHolds(ws, rd.lower, Some(ColumnName(columns, c)), terms, start, ColumnName(columns, c));
  }

  lemma {:induction false} PhraseHolds(ws: seq<Word>, lower: string -> string, field: Option<string>,
      terms: seq<string>, start: nat, column: string)
    requires terms != [] && (field.Some? ==> field.value == column)
    requires forall i :: 0 <= i < |terms| ==> lower(terms[i]) == terms[i]
    requires forall i :: 0 <= i < |terms| ==> start + i < |ws| && ws[start + i] == Word(column, terms[i])
    ensures Accepts(ws, lower, field, Phrase(terms))
  {
    assert WordsAt(ws, lower, field, terms, start);
  }

  // ------------------------------------------------------------------
  // Words and columns, in terms of the stored values.
  // ------------------------------------------------------------------

  /** The term is a token of the value. */
  ghost predicate HasToken(ab: Alphabet, value: string, term: string) {
    exists i :: 0 <= i < |TokensOf(ab, value)| && TokensOf(ab, value)[i].term == term
  }

  /** A word of a row is a token of one of its values, under the name of that value's column. */
  lemma {:induction false} WordsOfRow(ab: Alphabet, columns: seq<string>, row: Row, n: nat, w: Word)
    requires n <= |row|
    ensures w in WordsTo(ab, columns, row, n) <==>
      exists c: nat :: c < n && w.column == ColumnName(columns, c) && HasToken(ab, row[c], w.term)
  {
    hide TokensOf;
    if n > 0 {
      WordsOfRow(ab, columns, row, n - 1, w);
      var ps := TokensOf(ab, row[n - 1]);
      var more := Tagged(ColumnName(columns, n - 1), ps);
      if w in more {
        var i :| 0 <= i < |more| && more[i] == w;
        assert HasToken(ab, row[n - 1], w.term);
      }
      if HasToken(ab, row[n - 1], w.term) && w.column == ColumnName(columns, n - 1) {
        var i :| 0 <= i < |ps| && ps[i].term == w.term;
        assert more[i] == w;
      }
    }
  }

  lemma {:induction false} WordFound(rd: Reader, columns: seq<string>, row: Row, word: string)
    requires Trim(rd.space, word) == word && NoKeywords(word) && !InsideQuotes(word) && ':' !in word
    ensures Parse(rd, word).Some?
    ensures Satisfies(rd, columns, row, Parse(rd, word).value) <==>
      exists c: nat :: c < |row| && HasToken(rd.ab, row[c], rd.lower(rd.lower(word)))
  {
    hide Parse, Accepts, Trim, NoKeywords, InsideQuotes, HasToken, WordsTo;
    var ws, t := Words(rd.ab, columns, row), rd.lower(rd.lower(word));
    ReadsWord(rd, word, ws);
    if w :| w in ws && w.term == t {
      WordsOfRow(rd.ab, columns, row, |row|, w);
    }
    if c: nat :| c < |row| && HasToken(rd.ab, row[c], t) {
      WordsOfRow(rd.ab, columns, row, |row|, Word(ColumnName(columns, c), t));
    }
  }

  lemma {:induction false} WordParsed(rd: Reader, word: string)
    requires Trim(rd.space, word) == word && NoKeywords(word) && !InsideQuotes(word) && ':' !in word
    ensures Parse(rd, word).Some? && LowerFields(rd.lower, None, Parse(rd, word).value)
  {
    hide Trim, Quoted, KeywordAt, FlattenOr, FlattenAnd, TokensOf;
    assert FindColon(word).None? && FindKeyword(word, " OR ").None? && FindKeyword(word, " AND ").None?;
    assert Parse(rd, word) == Some(Term(rd.lower(word)));
    assert "" + rd.lower(word) == rd.lower(word) && "" + rd.lower(rd.lower(word)) == rd.lower(rd.lower(word));
  }

  lemma {:induction false} ColumnText(rd: Reader, column: string, word: string)
    requires Unmarked(column + ":" + word) && ':' !in column
    requires column != "" && !rd.space(column[0]) && word != "" && !rd.space(word[|word| - 1])
    ensures var q := column + ":" + word;
      && Trim(rd.space, q) == q && NoKeywords(q) && !InsideQuotes(q)
      && |column| < |q| && q[|column|] == ':' && q[..|column|] == column && q[|column| + 1..] == word
  {
    hide Unmarked, NoKeywords, InsideQuotes;
    var q := column + ":" + word;
    assert q[0] == column[0] && q[|q| - 1] == word[|word| - 1];
    TrimNothing(rd.space, q);
    UnmarkedReads(q);
  }

  lemma {:induction false} ColumnParsed(rd: Reader, column: string, word: string)
    requires Unmarked(column + ":" + word) && ':' !in column && ':' !in word && Unmarked(word)
    requires column != "" && !rd.space(column[0])
    requires word != "" && !rd.space(word[0]) && !rd.space(word[|word| - 1])
    requires rd.lower(column + ":" + rd.lower(word)) == column + ":" + rd.lower(rd.lower(word))
    ensures var q := Parse(rd, column + ":" + word);
      q == Some(ColumnFilter(column, Term(rd.lower(word)))) && LowerFields(rd.lower, None, q.value)
  {
    hide Trim, Quoted, KeywordAt, FlattenOr, FlattenAnd, TokensOf, Unmarked, InsideQuotes;
    ColumnText(rd, column, word);
    var q := column + ":" + word;
    FirstColon(q, |column|);
    TrimNothing(rd.space, word);
    UnmarkedReads(word);
    UnmarkedReads(q);
    assert FindKeyword(q, " OR ").None? && FindKeyword(q, " AND ").None?;
    assert FindColon(word).None? && FindKeyword(word, " OR ").None? && FindKeyword(word, " AND ").None?;
    PlainlyQuoted(word);
    PlainlyQuoted(q);
    assert Parse(rd, word) == Some(Term(rd.lower(word)));
    FilterLower(rd.lower, column, rd.lower(word));
  }

  lemma {:induction false} PlainlyQuoted(q: string)
    requires !InsideQuotes(q)
    ensures !(q != [] && q[0] == '\"' && q[|q| - 1] == '\"')
  {
  }

  lemma {:induction false} FilterLower(lower: string -> string, column: string, term: string)
    requires lower(column + ":" + term) == column + ":" + lower(term)
    ensures LowerFields(lower, None, ColumnFilter(column, Term(term)))
  {
  }

  lemma {:induction false} ColumnFound(rd: Reader, columns: seq<string>, row: Row, column: string, word: string)
    requires Unmarked(column + ":" + word) && ':' !in column && ':' !in word && Unmarked(word)
    requires column != "" && !rd.space(column[0])
    requires word != "" && !rd.space(word[0]) && !rd.space(word[|word| - 1])
    requires Parse(rd, column + ":" + word).Some?
    ensures Satisfies(rd, columns, row, Parse(rd, column + ":" + word).value) <==>
      exists c: nat ::
        c < |row| && c < |columns| && columns[c] == column && HasToken(rd.ab, row[c], rd.lower(rd.lower(word)))
  {
    hide Parse, Accepts, Trim, NoKeywords, InsideQuotes, HasToken, WordsTo, Unmarked;
    var ws, t := Words(rd.ab, columns, row), rd.lower(rd.lower(word));
    ColumnText(rd, column, word);
    assert ':' !in (column + ":" + word)[..|column|];
    ReadsFilter(rd, column + ":" + word, ws, None, |column|);
    TrimNothing(rd.space, word);
    UnmarkedReads(word);
    ReadsWord(rd, word, ws);
    if w :| w in ws && w.column == column && w.term == t {
      WordsOfRow(rd.ab, columns, row, |row|, w);
    }
    if c: nat :| c < |row| && c < |columns| && columns[c] == column && HasToken(rd.ab, row[c], t) {
      WordsOfRow(rd.ab, columns, row, |row|, Word(column, t));
    }
  }

  lemma {:induction false} PhraseFound(rd: Reader, columns: seq<string>, row: Row, terms: seq<string>)
    ensures Satisfies(rd, columns, row, Phrase(terms)) <==>
      terms != [] && exists start: nat :: InARow(Words(rd.ab, columns, row), rd.lower, terms, start)
  {
    hide Words;
    var ws := Words(rd.ab, columns, row);
    if terms != [] {
      forall start: nat
        ensures WordsAt(ws, rd.lower, None, terms, start) <==> InARow(ws, rd.lower, terms, start)
      {
        RowOfWords(ws, rd.lower, terms, start);
      }
    }
  }
}
