/** Cutting a text into words and bigrams (src/fts/tokenizer.rs). */
module Tokenizer {

  datatype Piece = Piece(term: string, offset: nat)

  /** The two facts about characters taken from the Unicode tables: `char::is_alphanumeric`, and
      the first character of `char::to_lowercase`. */
  datatype Alphabet = Alphabet(alnum: char -> bool, lower: char -> char)

  predicate IsCjk(c: char) {
    || '\U{4E00}' <= c <= '\U{9FFF}'
    || '\U{3400}' <= c <= '\U{4DBF}'
    || '\U{20000}' <= c <= '\U{2A6DF}'
    || '\U{F900}' <= c <= '\U{FAFF}'
    || '\U{2E80}' <= c <= '\U{2EFF}'
    || '\U{3040}' <= c <= '\U{309F}'
    || '\U{30A0}' <= c <= '\U{30FF}'
    || '\U{AC00}' <= c <= '\U{D7AF}'
  }

  predicate IsWord(ab: Alphabet, c: char) {
    ab.alnum(c) && !IsCjk(c)
  }

  /** Full-width forms become half-width, then lower case. */
  function Folded(ab: Alphabet, c: char): char {
    if '\U{FF01}' <= c <= '\U{FF5E}' then ab.lower((c as int - 0xFF01 + 0x21) as char)
    else if c == '\U{3000}' then ab.lower(' ')
    else ab.lower(c)
  }

  function Normalized(ab: Alphabet, text: string): (r: string)
    ensures |r| == |text| && forall i :: 0 <= i < |r| ==> r[i] == Folded(ab, text[i])
  {
    seq(|text|, i requires 0 <= i < |text| => Folded(ab, text[i]))
  }

  // ------------------------------------------------------------------
  // What the tokens of a text are, said position by position.
  // ------------------------------------------------------------------

  predicate CjkAt(cs: string, x: int) { 0 <= x < |cs| && IsCjk(cs[x]) }

  predicate WordAt(ab: Alphabet, cs: string, x: int) { 0 <= x < |cs| && IsWord(ab, cs[x]) }

  /** The end of the word that runs through position `x`. */
  function WordEnd(ab: Alphabet, cs: string, x: nat): (e: nat)
    requires x <= |cs|
    ensures x <= e <= |cs| && !WordAt(ab, cs, e)
    ensures forall i :: x <= i < e ==> WordAt(ab, cs, i)
    decreases |cs| - x
  {
    if WordAt(ab, cs, x) then WordEnd(ab, cs, x + 1) else x
  }

  /** The one token that may start at position `x`: two neighbouring ideographs, an ideograph with
      no neighbour, or a whole word at its first character. */
  function TokenAt(ab: Alphabet, cs: string, x: nat): seq<Piece>
    requires x < |cs|
  {
    if CjkAt(cs, x) then
      if CjkAt(cs, x + 1) then [Piece(cs[x..x + 2], x)]
      else if CjkAt(cs, x - 1) then []
      else [Piece([cs[x]], x)]
    else if WordAt(ab, cs, x) && !WordAt(ab, cs, x - 1) then [Piece(cs[x..WordEnd(ab, cs, x)], x)]
    else []
  }

  /** The tokens that start before position `n`, in text order. */
  function Tokens(ab: Alphabet, cs: string, n: nat): seq<Piece>
    requires n <= |cs|
  {
    if n == 0 then [] else Tokens(ab, cs, n - 1) + TokenAt(ab, cs, n - 1)
  }

  function TokensOf(ab: Alphabet, text: string): seq<Piece> {
    Tokens(ab, Normalized(ab, text), |text|)
  }

  /** A stretch in which no token starts adds nothing. */
  lemma {:induction false} Quiet(ab: Alphabet, cs: string, a: nat, b: nat)
    requires a <= b <= |cs| && forall x :: a <= x < b ==> TokenAt(ab, cs, x) == []
    ensures Tokens(ab, cs, b) == Tokens(ab, cs, a)
  {
    if a < b {
      Quiet(ab, cs, a, b - 1);
    }
  }

  /** The scan, one run of like characters at a time. */
  method Tokenize(ab: Alphabet, text: string) returns (tokens: seq<Piece>)
    ensures tokens == TokensOf(ab, text)
  {
    hide IsCjk, IsWord, TokenAt;
    var cs := Normalized(ab, text);
    tokens := [];
    var i := 0;
    while i < |cs|
      invariant 0 <= i <= |cs| && tokens == Tokens(ab, cs, i)
      invariant !(CjkAt(cs, i) && CjkAt(cs, i - 1)) && !(WordAt(ab, cs, i) && WordAt(ab, cs, i - 1))
    {
      if IsCjk(cs[i]) {
        i, tokens := CjkRun(ab, cs, i, tokens);
      } else if IsWord(ab, cs[i]) {
        i, tokens := WordRun(ab, cs, i, tokens);
      } else {
        Skipped(ab, cs, i);
        i := i + 1;
      }
    }
  }

  /** A run of ideographs: its bigrams, or the one ideograph of a run of length one. */
  method CjkRun(ab: Alphabet, cs: string, start: nat, before: seq<Piece>) returns (end: nat, tokens: seq<Piece>)
    requires CjkAt(cs, start) && !CjkAt(cs, start - 1) && before == Tokens(ab, cs, start)
    ensures start < end <= |cs| && CjkAt(cs, end - 1) && !CjkAt(cs, end) && !WordAt(ab, cs, end - 1)
    ensures tokens == Tokens(ab, cs, end)
  {
    hide IsCjk, TokenAt;
    end := start;
    while end < |cs| && IsCjk(cs[end])
      invariant start <= end <= |cs| && forall x :: start <= x < end ==> CjkAt(cs, x)
    {
      end := end + 1;
    }
    tokens := before;
    for j := start to end
      invariant tokens == Tokens(ab, cs, j)
    {
      assert CjkAt(cs, j) && (CjkAt(cs, j + 1) <==> j + 1 < end) && (CjkAt(cs, j - 1) <==> start < j);
      CjkToken(ab, cs, j);
      if j + 1 < end {
        tokens := tokens + [Piece(cs[j..j + 2], j)];
      }
      if end - start == 1 {
        tokens := tokens + [Piece([cs[j]], j)];
      }
    }
  }

  /** A run of word characters is one token. */
  method WordRun(ab: Alphabet, cs: string, start: nat, before: seq<Piece>) returns (i: nat, tokens: seq<Piece>)
    requires WordAt(ab, cs, start) && !WordAt(ab, cs, start - 1) && before == Tokens(ab, cs, start)
    ensures start < i <= |cs| && WordAt(ab, cs, i - 1) && !WordAt(ab, cs, i) && !CjkAt(cs, i - 1)
    ensures tokens == Tokens(ab, cs, i)
  {
    hide IsCjk, TokenAt, Tokens, WordEnd;
    i := start;
    while i < |cs| && IsWord(ab, cs[i])
      invariant start <= i <= |cs| && forall x :: start <= x < i ==> WordAt(ab, cs, x)
    {
      i := i + 1;
    }
    WordEndIs(ab, cs, start, i);
    WordToken(ab, cs, start);
    tokens := before + [Piece(cs[start..i], start)];
    forall x | start + 1 <= x < i
      ensures TokenAt(ab, cs, x) == []
    {
      MidWord(ab, cs, x);
    }
    Quiet(ab, cs, start + 1, i);
  }

  lemma {:induction false} CjkToken(ab: Alphabet, cs: string, x: nat)
    requires CjkAt(cs, x)
    ensures TokenAt(ab, cs, x) ==
      if CjkAt(cs, x + 1) then [Piece(cs[x..x + 2], x)] else if CjkAt(cs, x - 1) then [] else [Piece([cs[x]], x)]
  {
    hide IsCjk, IsWord;
  }

  lemma {:induction false} Skipped(ab: Alphabet, cs: string, x: nat)
    requires x < |cs| && !CjkAt(cs, x) && !WordAt(ab, cs, x)
    ensures TokenAt(ab, cs, x) == []
  {
    hide IsCjk, IsWord;
  }

  lemma {:induction false} MidWord(ab: Alphabet, cs: string, x: nat)
    requires WordAt(ab, cs, x) && WordAt(ab, cs, x - 1)
    ensures TokenAt(ab, cs, x) == []
  {
    hide IsCjk;
  }

  lemma {:induction false} WordToken(ab: Alphabet, cs: string, x: nat)
    requires WordAt(ab, cs, x) && !WordAt(ab, cs, x - 1)
    ensures Tokens(ab, cs, x + 1) == Tokens(ab, cs, x) + [Piece(cs[x..WordEnd(ab, cs, x)], x)]
  {
    hide IsCjk, WordEnd;
  }

  lemma {:induction false} WordEndIs(ab: Alphabet, cs: string, x: nat, e: nat)
    requires x <= e <= |cs| && !WordAt(ab, cs, e) && forall i :: x <= i < e ==> WordAt(ab, cs, i)
    ensures WordEnd(ab, cs, x) == e
  {
    hide WordEnd, IsCjk, IsWord;
    var f := WordEnd(ab, cs, x);
    assert f < e ==> WordAt(ab, cs, f);
    assert e < f ==> WordAt(ab, cs, e);
  }

  // ------------------------------------------------------------------
  // Facts about every text.
  // ------------------------------------------------------------------

  lemma {:induction false} OneToken(ab: Alphabet, cs: string, x: nat)
    requires x < |cs|
    ensures |TokenAt(ab, cs, x)| <= 1
    ensures TokenAt(ab, cs, x) != [] ==> CutOut(cs, x + 1, TokenAt(ab, cs, x)[0]) && TokenAt(ab, cs, x)[0].offset == x
  {
    hide IsCjk, IsWord, WordEnd;
    if CjkAt(cs, x) {
      assert cs[x..x + 1] == [cs[x]];
    }
  }

  lemma {:induction false} CutLater(cs: string, n: nat, p: Piece)
    requires CutOut(cs, n, p)
    ensures CutOut(cs, n + 1, p) && p.offset < n
  {
  }

  /** Token offsets are distinct and ascending, and each token is cut out of the text there. */
  lemma {:induction false} TokensOrdered(ab: Alphabet, cs: string, n: nat)
    requires n <= |cs|
    ensures |Tokens(ab, cs, n)| <= n
    ensures forall k :: 0 <= k < |Tokens(ab, cs, n)| ==> CutOut(cs, n, Tokens(ab, cs, n)[k])
    ensures forall j, k ::
        0 <= j < k < |Tokens(ab, cs, n)| ==> Tokens(ab, cs, n)[j].offset < Tokens(ab, cs, n)[k].offset
  {
    hide IsCjk, IsWord, WordEnd, TokenAt, CutOut;
    if n > 0 {
      TokensOrdered(ab, cs, n - 1);
      OneToken(ab, cs, n - 1);
      var before := Tokens(ab, cs, n - 1);
      forall k | 0 <= k < |before|
        ensures CutOut(cs, n, before[k]) && before[k].offset < n - 1
      {
        CutLater(cs, n - 1, before[k]);
      }
    }
  }

  ghost predicate CutOut(cs: string, n: nat, p: Piece) {
    p.term != [] && p.offset < n && p.offset + |p.term| <= |cs| && p.term == cs[p.offset..p.offset + |p.term|]
  }

  /** Every character of a token is an ideograph or a word character. */
  lemma {:induction false} TokenChars(ab: Alphabet, cs: string, n: nat)
    requires n <= |cs|
    ensures forall k :: 0 <= k < |Tokens(ab, cs, n)| ==> Spelled(ab, Tokens(ab, cs, n)[k].term)
  {
    hide IsCjk, IsWord, TokenAt, Spelled;
    if n > 0 {
      TokenChars(ab, cs, n - 1);
      OneSpelled(ab, cs, n - 1);
    }
  }

  lemma {:induction false} OneSpelled(ab: Alphabet, cs: string, x: nat)
    requires x < |cs|
    ensures forall k :: 0 <= k < |TokenAt(ab, cs, x)| ==> Spelled(ab, TokenAt(ab, cs, x)[k].term)
  {
    hide IsCjk, IsWord, WordEnd;
    if !CjkAt(cs, x) {
      var e := WordEnd(ab, cs, x);
      forall i | x <= i < e
        ensures IsWord(ab, cs[i])
      {
        assert WordAt(ab, cs, i);
      }
    }
  }

  ghost predicate Spelled(ab: Alphabet, s: string) {
    s != [] && forall i :: 0 <= i < |s| ==> IsCjk(s[i]) || IsWord(ab, s[i])
  }

  function Terms(ps: seq<Piece>): (r: seq<string>)
    ensures |r| == |ps| && forall i :: 0 <= i < |r| ==> r[i] == ps[i].term
  {
    seq(|ps|, i requires 0 <= i < |ps| => ps[i].term)
  }

  /** `q` occurs in `s` at `a`. */
  ghost predicate OccursAt(q: string, s: string, a: nat) {
    a + |q| <= |s| && q == s[a..a + |q|]
  }

  ghost predicate AllCjk(q: string) { forall i :: 0 <= i < |q| ==> IsCjk(q[i]) }

  /** The bigram at `x` is in its place after the `base` tokens that start before `a`. */
  ghost predicate BigramAt(ps: seq<Piece>, base: nat, cs: string, a: nat, x: nat) {
    a <= x < |cs| - 1 && base + x - a < |ps| && ps[base + x - a] == Piece([cs[x], cs[x + 1]], x)
  }

  /** The tokens of an ideographic stretch: its bigrams, one by one. */
  lemma {:induction false} Bigrams(ab: Alphabet, cs: string, a: nat, b: nat)
    requires a <= b < |cs| && forall i :: a <= i <= b ==> CjkAt(cs, i)
    ensures |Tokens(ab, cs, b)| == |Tokens(ab, cs, a)| + b - a
    ensures forall x :: a <= x < b ==> BigramAt(Tokens(ab, cs, b), |Tokens(ab, cs, a)|, cs, a, x)
  {
    hide IsCjk, IsWord, TokenAt;
    if a < b {
      Bigrams(ab, cs, a, b - 1);
      assert CjkAt(cs, b - 1) && CjkAt(cs, b);
      CjkToken(ab, cs, b - 1);
      assert cs[b - 1..b + 1] == [cs[b - 1], cs[b]];
      var before := Tokens(ab, cs, b - 1);
      assert Tokens(ab, cs, b) == before + [Piece([cs[b - 1], cs[b]], b - 1)];
      forall x | a <= x < b
        ensures BigramAt(Tokens(ab, cs, b), |Tokens(ab, cs, a)|, cs, a, x)
      {
        assert x < b - 1 ==> BigramAt(before, |Tokens(ab, cs, a)|, cs, a, x);
      }
    }
  }

  lemma {:induction false} TokensPrefix(ab: Alphabet, cs: string, a: nat, b: nat)
    requires a <= b <= |cs|
    ensures Tokens(ab, cs, a) <= Tokens(ab, cs, b)
  {
    if a < b {
      TokensPrefix(ab, cs, a, b - 1);
    }
  }

  lemma {:induction false} LastQuiet(ab: Alphabet, cs: string)
    requires |cs| >= 2 && AllCjk(cs)
    ensures Tokens(ab, cs, |cs|) == Tokens(ab, cs, |cs| - 1) && Tokens(ab, cs, 0) == []
  {
    hide IsCjk, IsWord, TokenAt;
    CjkToken(ab, cs, |cs| - 1);
  }

  /** Wherever an ideographic string of length two or more occurs, its own tokens are a contiguous
      part of the tokens of the whole text. */
  lemma {:induction false} CjkContiguous(ab: Alphabet, text: string, q: string, a: nat) returns (k: nat)
    requires OccursAt(q, text, a) && |q| >= 2 && AllCjk(Normalized(ab, q))
    ensures k + |TokensOf(ab, q)| <= |TokensOf(ab, text)| && |TokensOf(ab, q)| == |q| - 1
    ensures Terms(TokensOf(ab, text))[k..k + |TokensOf(ab, q)|] == Terms(TokensOf(ab, q))
  {
    hide IsCjk, IsWord, Folded, TokenAt, Tokens;
    var cs, ds := Normalized(ab, text), Normalized(ab, q);
    var n := |q|;
    forall i | 0 <= i < n
      ensures ds[i] == cs[a + i]
    {
      assert q[i] == text[a + i];
    }
    Bigrams(ab, cs, a, a + n - 1);
    Bigrams(ab, ds, 0, n - 1);
    LastQuiet(ab, ds);
    TokensPrefix(ab, cs, a + n - 1, |cs|);
    k := |Tokens(ab, cs, a)|;
    var all, own, upTo := TokensOf(ab, text), TokensOf(ab, q), Tokens(ab, cs, a + n - 1);
    forall i | 0 <= i < n - 1
      ensures all[k + i].term == own[i].term
    {
      assert BigramAt(upTo, k, cs, a, a + i) && BigramAt(own, 0, ds, 0, i);
      assert all[k + i] == upTo[k + i];
    }
  }

  // ------------------------------------------------------------------
  // Tokens of plain texts.
  // ------------------------------------------------------------------

  /** The blocks that count as ideographs, by their numbers. */
  lemma {:induction false} Blocks(c: char)
    ensures var v := c as int;
      IsCjk(c) <==>
        || 0x4E00 <= v <= 0x9FFF || 0x3400 <= v <= 0x4DBF || 0x2_0000 <= v <= 0x2_A6DF || 0xF900 <= v <= 0xFAFF
        || 0x2E80 <= v <= 0x2EFF || 0x3040 <= v <= 0x30FF || 0xAC00 <= v <= 0xD7AF
  {
  }

  /** Full-width forms lie a fixed distance above the half-width ones; an ideographic space is a space. */
  lemma {:induction false} Narrowed(ab: Alphabet, c: char)
    ensures '!' <= c <= '~' ==> Folded(ab, (c as int + 0xFEE0) as char) == ab.lower(c)
    ensures Folded(ab, '\U{3000}') == ab.lower(' ')
    ensures c as int != 0x3000 && !(0xFF01 <= c as int <= 0xFF5E) ==> Folded(ab, c) == ab.lower(c)
  {
  }

  /** Ideographs only: every two neighbours make a token, and a single one makes one by itself. */
  lemma {:induction false} IdeographTokens(ab: Alphabet, cs: string, n: nat)
    requires |cs| >= 2 && n < |cs| && forall i :: 0 <= i < |cs| ==> IsCjk(cs[i])
    ensures Tokens(ab, cs, n) == seq(n, i requires 0 <= i < n => Piece(cs[i..i + 2], i))
    ensures n + 1 == |cs| ==> Tokens(ab, cs, |cs|) == seq(n, i requires 0 <= i < n => Piece(cs[i..i + 2], i))
  {
    if n > 0 {
      IdeographTokens(ab, cs, n - 1);
      assert TokenAt(ab, cs, n - 1) == [Piece(cs[n - 1..n + 1], n - 1)];
    }
    if n + 1 == |cs| {
      assert TokenAt(ab, cs, n) == [];
    }
  }

  lemma {:induction false} OneIdeograph(ab: Alphabet, cs: string)
    requires |cs| == 1 && IsCjk(cs[0])
    ensures Tokens(ab, cs, 1) == [Piece(cs, 0)]
  {
    assert Tokens(ab, cs, 0) == [] && [cs[0]] == cs;
  }

  /** Letters and digits that are not ideographs. */
  predicate AllWord(ab: Alphabet, s: string) { forall i :: 0 <= i < |s| ==> ab.alnum(s[i]) && !IsCjk(s[i]) }

  /** Word characters only: one token. */
  lemma {:induction false} WordTokens(ab: Alphabet, cs: string, n: nat)
    requires 1 <= n <= |cs| && AllWord(ab, cs)
    ensures Tokens(ab, cs, n) == [Piece(cs, 0)]
  {
    if n > 1 {
      WordTokens(ab, cs, n - 1);
      assert TokenAt(ab, cs, n - 1) == [];
    } else {
      assert WordEnd(ab, cs, 0) == |cs| && cs[0..|cs|] == cs;
      assert Tokens(ab, cs, 0) == [];
    }
  }

  /** Two words with another character between them: two tokens, each at its offset. */
  lemma {:induction false} TwoWordTokens(ab: Alphabet, u: string, c: char, v: string)
    requires u != "" && v != "" && AllWord(ab, u) && AllWord(ab, v) && !ab.alnum(c) && !IsCjk(c)
    ensures var cs := u + [c] + v; Tokens(ab, cs, |cs|) == [Piece(u, 0), Piece(v, |u| + 1)]
  {
    hide IsWord, IsCjk, WordEnd, TokenAt, Tokens, WordAt, CjkAt, AllWord;
    var cs := u + [c] + v;
    var m := |u|;
    Kinds(ab, u, c, v);
    WordStarts(ab, cs, 0, m);
    WordStarts(ab, cs, m + 1, |cs|);
    forall x | 0 < x < |cs| && x != m + 1
      ensures TokenAt(ab, cs, x) == []
    {
      NothingStarts(ab, cs, x, m);
    }
    assert cs[0..m] == u && cs[m + 1..|cs|] == v;
    FirstToken(ab, cs);
    Quiet(ab, cs, 1, m + 1);
    OneMoreToken(ab, cs, m + 1);
    Quiet(ab, cs, m + 2, |cs|);
  }

  lemma {:induction false} Kinds(ab: Alphabet, u: string, c: char, v: string)
    requires u != "" && v != "" && AllWord(ab, u) && AllWord(ab, v) && !ab.alnum(c) && !IsCjk(c)
    ensures var cs := u + [c] + v;
      forall x :: (WordAt(ab, cs, x) <==> 0 <= x < |cs| && x != |u|) && !CjkAt(cs, x)
  {
    hide IsCjk;
    var cs := u + [c] + v;
    var m := |u|;
    forall x
      ensures (WordAt(ab, cs, x) <==> 0 <= x < |cs| && x != m) && !CjkAt(cs, x)
    {
      if 0 <= x < |cs| {
        assert cs[x] == if x < m then u[x] else if x == m then c else v[x - m - 1];
      }
    }
  }

  /** A word that runs from `a` to `b`. */
  lemma {:induction false} WordStarts(ab: Alphabet, cs: string, a: nat, b: nat)
    requires a < b <= |cs| && !WordAt(ab, cs, a - 1) && !WordAt(ab, cs, b) && !CjkAt(cs, a)
    requires forall x :: a <= x < b ==> WordAt(ab, cs, x)
    ensures TokenAt(ab, cs, a) == [Piece(cs[a..b], a)]
  {
    hide IsWord, IsCjk;
    var e := WordEnd(ab, cs, a);
    assert WordAt(ab, cs, a) && !WordAt(ab, cs, e);
    assert e < b ==> WordAt(ab, cs, e);
    assert e > b ==> WordAt(ab, cs, b);
  }

  lemma {:induction false} NothingStarts(ab: Alphabet, cs: string, x: nat, m: nat)
    requires 0 < x < |cs| && x != m + 1 && !CjkAt(cs, x)
    requires (WordAt(ab, cs, x) <==> x != m) && (WordAt(ab, cs, x - 1) <==> x - 1 != m)
    ensures TokenAt(ab, cs, x) == []
  {
  }

  lemma {:induction false} FirstToken(ab: Alphabet, cs: string)
    requires cs != ""
    ensures Tokens(ab, cs, 1) == TokenAt(ab, cs, 0)
  {
    hide TokenAt;
    assert Tokens(ab, cs, 0) == [];
  }

  lemma {:induction false} OneMoreToken(ab: Alphabet, cs: string, n: nat)
    requires n < |cs|
    ensures Tokens(ab, cs, n + 1) == Tokens(ab, cs, n) + TokenAt(ab, cs, n)
  {
    hide TokenAt;
  }
}
