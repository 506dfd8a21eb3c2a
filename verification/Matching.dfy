/** The GLOB table and the LIKE matcher (src/planner/executor.rs), against one declarative relation. */
module Matching {

  /** What one pattern character stands for. */
  datatype Piece = Any | One | Lit(c: char)

  /** When two characters count as the same. */
  type Same = (char, char) -> bool

  predicate Fits(part: string, x: Piece, same: Same) {
    match x
    case Any => true
    case One => |part| == 1
    case Lit(c) => |part| == 1 && same(c, part[0])
  }

  ghost function Concat(parts: seq<string>): string {
    if parts == [] then [] else parts[0] + Concat(parts[1..])
  }

  /** `parts` cuts `s` into one substring for each piece. */
  ghost predicate Cuts(parts: seq<string>, s: string, ps: seq<Piece>, same: Same) {
    && |parts| == |ps| && Concat(parts) == s
    && forall i :: 0 <= i < |ps| ==> Fits(parts[i], ps[i], same)
  }

  /** A string matches when it can be cut into consecutive substrings that fit the pieces. */
  ghost predicate Means(s: string, ps: seq<Piece>, same: Same) {
    exists parts :: Cuts(parts, s, ps, same)
  }

  lemma {:induction false} ConcatSnoc(parts: seq<string>, x: string)
    ensures Concat(parts + [x]) == Concat(parts) + x
  {
    if parts == [] {
      assert Concat([x]) == x + Concat([]);
      assert parts + [x] == [x];
    } else {
      assert (parts + [x])[1..] == parts[1..] + [x];
      ConcatSnoc(parts[1..], x);
    }
  }

  /** Peeling the first piece off. */
  lemma {:induction false} FirstPiece(s: string, ps: seq<Piece>, same: Same)
    requires ps != []
    ensures Means(s, ps, same) <==>
      exists i :: 0 <= i <= |s| && Fits(s[..i], ps[0], same) && Means(s[i..], ps[1..], same)
  {
    if Means(s, ps, same) {
      var parts :| Cuts(parts, s, ps, same);
      var i := |parts[0]|;
      assert s[..i] == parts[0] && s[i..] == Concat(parts[1..]);
      assert Cuts(parts[1..], s[i..], ps[1..], same);
    }
    if i :| 0 <= i <= |s| && Fits(s[..i], ps[0], same) && Means(s[i..], ps[1..], same) {
      var rest :| Cuts(rest, s[i..], ps[1..], same);
      var parts := [s[..i]] + rest;
      assert parts[1..] == rest && s == s[..i] + s[i..];
      assert Cuts(parts, s, ps, same);
    }
  }

  /** Peeling the last piece off. */
  lemma {:induction false} LastPiece(s: string, ps: seq<Piece>, same: Same)
    requires ps != []
    ensures Means(s, ps, same) <==>
      exists i :: 0 <= i <= |s| && Fits(s[i..], ps[|ps| - 1], same) && Means(s[..i], ps[..|ps| - 1], same)
  {
    var n := |ps| - 1;
    if Means(s, ps, same) {
      var parts :| Cuts(parts, s, ps, same);
      assert parts == parts[..n] + [parts[n]];
      ConcatSnoc(parts[..n], parts[n]);
      var i := |Concat(parts[..n])|;
      assert s[i..] == parts[n] && s[..i] == Concat(parts[..n]);
      assert Cuts(parts[..n], s[..i], ps[..n], same);
    }
    if i :| 0 <= i <= |s| && Fits(s[i..], ps[n], same) && Means(s[..i], ps[..n], same) {
      var rest :| Cuts(rest, s[..i], ps[..n], same);
      var parts := rest + [s[i..]];
      ConcatSnoc(rest, s[i..]);
      assert s == s[..i] + s[i..];
      assert Cuts(parts, s, ps, same);
    }
  }

  lemma {:induction false} NoPieces(s: string, same: Same)
    ensures Means(s, [], same) <==> s == []
  {
    if s == [] {
      assert Cuts([], s, [], same);
    }
  }

  // ------------------------------------------------------------------
  // GLOB.
  // ------------------------------------------------------------------

  function GlobPiece(c: char): Piece {
    if c == '*' then Any else if c == '?' then One else Lit(c)
  }

  function GlobPieces(p: string): seq<Piece> {
    seq(|p|, i requires 0 <= i < |p| => GlobPiece(p[i]))
  }

  function Equal(): Same { (c, d) => c == d }

  /** The entry for the first `i` characters and the first `j` pattern characters. */
  ghost predicate Entry(s: string, p: string, i: nat, j: nat)
    requires i <= |s| && j <= |p|
  {
    Means(s[..i], GlobPieces(p)[..j], Equal())
  }

  /** The recurrence the table is filled by. */
  lemma {:induction false} EntryStep(s: string, p: string, i: nat, j: nat)
    requires i <= |s| && 0 < j <= |p|
    ensures p[j - 1] == '*' ==> (Entry(s, p, i, j) <==> Entry(s, p, i, j - 1) || (i > 0 && Entry(s, p, i - 1, j)))
    ensures p[j - 1] != '*' ==> (Entry(s, p, i, j) <==>
      i > 0 && (p[j - 1] == '?' || s[i - 1] == p[j - 1]) && Entry(s, p, i - 1, j - 1))
  {
    var t, ps := s[..i], GlobPieces(p)[..j];
    assert ps[..j - 1] == GlobPieces(p)[..j - 1] && ps[j - 1] == GlobPiece(p[j - 1]);
    assert i > 0 ==> t[..i - 1] == s[..i - 1] && t[i - 1] == s[i - 1];
    if p[j - 1] == '*' {
      StarStep(t, ps, i);
    } else {
      OneStep(t, ps, i);
    }
  }

  lemma {:induction false} StarStep(t: string, ps: seq<Piece>, i: nat)
    requires |t| == i && ps != [] && ps[|ps| - 1] == Any
    ensures Means(t, ps, Equal()) <==>
      Means(t, ps[..|ps| - 1], Equal()) || (i > 0 && Means(t[..i - 1], ps, Equal()))
  {
    var before := ps[..|ps| - 1];
    LastPiece(t, ps, Equal());
    assert t[..i] == t;
    assert Fits(t[i..], Any, Equal());
    if i > 0 {
      var u := t[..i - 1];
      LastPiece(u, ps, Equal());
      forall k | 0 <= k <= i - 1
        ensures u[..k] == t[..k] && Fits(t[k..], Any, Equal()) && Fits(u[k..], Any, Equal())
      {
      }
    }
  }

  lemma {:induction false} OneStep(t: string, ps: seq<Piece>, i: nat)
    requires |t| == i && ps != [] && ps[|ps| - 1] != Any
    ensures Means(t, ps, Equal()) <==>
      i > 0 && (ps[|ps| - 1] == One || ps[|ps| - 1] == Lit(t[i - 1])) && Means(t[..i - 1], ps[..|ps| - 1], Equal())
  {
    LastPiece(t, ps, Equal());
    forall k | 0 <= k <= i && Fits(t[k..], ps[|ps| - 1], Equal())
      ensures k == i - 1 && t[k..] == [t[i - 1]]
    {
    }
    if i > 0 {
      assert t[i - 1..] == [t[i - 1]];
    }
  }

  /** The table, filled row by row, decides the relation for all strings and patterns. */
  method GlobMatch(s: string, p: string) returns (r: bool)
    ensures r <==> Means(s, GlobPieces(p), Equal())
  {
    var n, m := |s|, |p|;
    var dp := new bool[n + 1, m + 1]((i, j) => false);
    dp[0, 0] := true;
    NoPieces(s[..0], Equal());
    for j := 1 to m + 1
      invariant forall k :: 0 <= k < j ==> dp[0, k] == Entry(s, p, 0, k)
      invariant forall k :: j <= k <= m ==> !dp[0, k]
      invariant forall i :: 1 <= i <= n ==> !dp[i, 0]
    {
      EntryStep(s, p, 0, j);
      if p[j - 1] == '*' {
        dp[0, j] := dp[0, j - 1];
      }
    }
    for i := 1 to n + 1
      invariant forall h, k :: 0 <= h < i && 0 <= k <= m ==> dp[h, k] == Entry(s, p, h, k)
      invariant forall h :: i <= h <= n ==> !dp[h, 0]
    {
      NoPieces(s[..i], Equal());
      assert GlobPieces(p)[..0] == [];
      for j := 1 to m + 1
        invariant forall h, k :: 0 <= h < i && 0 <= k <= m ==> dp[h, k] == Entry(s, p, h, k)
        invariant forall h :: i < h <= n ==> !dp[h, 0]
        invariant forall k :: 0 <= k < j ==> dp[i, k] == Entry(s, p, i, k)
      {
        EntryStep(s, p, i, j);
        if p[j - 1] == '*' {
          dp[i, j] := dp[i - 1, j] || dp[i, j - 1];
        } else if p[j - 1] == '?' || s[i - 1] == p[j - 1] {
          dp[i, j] := dp[i - 1, j - 1];
        } else {
          dp[i, j] := false;
        }
      }
    }
    assert s[..n] == s && GlobPieces(p)[..m] == GlobPieces(p);
    r := dp[n, m];
  }

  // ------------------------------------------------------------------
  // LIKE.  `upper` is the uppercase mapping of characters.
  // ------------------------------------------------------------------

  function LikePiece(c: char): Piece {
    if c == '%' then Any else if c == '_' then One else Lit(c)
  }

  function LikePieces(p: string): seq<Piece> {
    seq(|p|, i requires 0 <= i < |p| => LikePiece(p[i]))
  }

  function UpToCase(upper: char -> string): Same { (c, d) => upper(c) == upper(d) }

  predicate LikeMatch(s: string, p: string, upper: char -> string)
    decreases |p|
  {
    if p == [] then s == []
    else if p[0] == '%' then
      if |p| == 1 then true else exists i :: 0 <= i <= |s| && LikeMatch(s[i..], p[1..], upper)
    else if s == [] then false
    else (p[0] == '_' || upper(p[0]) == upper(s[0])) && LikeMatch(s[1..], p[1..], upper)
  }

  /** The recursive matcher decides the relation for all strings, patterns and case mappings. */
  lemma {:induction false} LikeDecides(s: string, p: string, upper: char -> string)
    ensures LikeMatch(s, p, upper) <==> Means(s, LikePieces(p), UpToCase(upper))
    decreases |p|
  {
    var same, ps := UpToCase(upper), LikePieces(p);
    if p == [] {
      NoPieces(s, same);
    } else {
      assert ps[1..] == LikePieces(p[1..]);
      FirstPiece(s, ps, same);
      if p[0] == '%' {
        forall i | 0 <= i <= |s|
          ensures LikeMatch(s[i..], p[1..], upper) <==> Means(s[i..], ps[1..], same)
        {
          LikeDecides(s[i..], p[1..], upper);
        }
        if |p| == 1 {
          NoPieces(s[|s|..], same);
          assert Fits(s[..|s|], ps[0], same);
        }
        forall i | 0 <= i <= |s|
          ensures Fits(s[..i], ps[0], same)
        {
        }
      } else {
        if s != [] {
          LikeDecides(s[1..], p[1..], upper);
          assert Fits(s[..1], ps[0], same) <==> p[0] == '_' || upper(p[0]) == upper(s[0]);
        }
        forall i | 0 <= i <= |s| && Fits(s[..i], ps[0], same)
          ensures i == 1
        {
        }
      }
    }
  }

  // ------------------------------------------------------------------
  // Patterns by their characters.
  // ------------------------------------------------------------------

  /** One pattern after another matches what can be cut in two. */
  lemma {:induction false} InTurn(s: string, ps: seq<Piece>, qs: seq<Piece>, same: Same)
    ensures Means(s, ps + qs, same) <==> exists i :: 0 <= i <= |s| && Means(s[..i], ps, same) && Means(s[i..], qs, same)
  {
    if ps == [] {
      assert ps + qs == qs && s[0..] == s;
      NoPieces(s[..0], same);
      forall i | 0 <= i <= |s| && Means(s[..i], ps, same)
        ensures i == 0
      {
        NoPieces(s[..i], same);
      }
    } else {
      var all := ps + qs;
      assert all[0] == ps[0] && all[1..] == ps[1..] + qs;
      FirstPiece(s, all, same);
      forall k | 0 <= k <= |s|
        ensures Means(s[k..], all[1..], same) <==> CutsFrom(s, k, ps[1..], qs, same)
      {
        InTurn(s[k..], ps[1..], qs, same);
      }
      CutTwice(s, ps, qs, same);
    }
  }

  /** `s` from `k` on can be cut in two. */
  ghost predicate CutsFrom(s: string, k: nat, ps: seq<Piece>, qs: seq<Piece>, same: Same)
    requires k <= |s|
  {
    exists i :: 0 <= i <= |s[k..]| && Means(s[k..][..i], ps, same) && Means(s[k..][i..], qs, same)
  }

  lemma {:induction false} CutTwice(s: string, ps: seq<Piece>, qs: seq<Piece>, same: Same)
    requires ps != []
    ensures (exists i :: 0 <= i <= |s| && Means(s[..i], ps, same) && Means(s[i..], qs, same)) <==>
      exists k :: 0 <= k <= |s| && Fits(s[..k], ps[0], same) && CutsFrom(s, k, ps[1..], qs, same)
  {
    if i :| 0 <= i <= |s| && Means(s[..i], ps, same) && Means(s[i..], qs, same) {
      FirstPiece(s[..i], ps, same);
      var k :| 0 <= k <= i && Fits(s[..i][..k], ps[0], same) && Means(s[..i][k..], ps[1..], same);
      assert s[..i][..k] == s[..k] && s[..i][k..] == s[k..][..i - k] && s[k..][i - k..] == s[i..];
      assert CutsFrom(s, k, ps[1..], qs, same);
    }
    if k :| 0 <= k <= |s| && Fits(s[..k], ps[0], same) && CutsFrom(s, k, ps[1..], qs, same) {
      var i :| 0 <= i <= |s[k..]| && Means(s[k..][..i], ps[1..], same) && Means(s[k..][i..], qs, same);
      var j := k + i;
      assert s[..j][..k] == s[..k] && s[..j][k..] == s[k..][..i] && s[k..][i..] == s[j..];
      FirstPiece(s[..j], ps, same);
    }
  }

  /** Each character of `p` stands for itself. */
  predicate AllLit(ps: seq<Piece>, p: string) {
    |ps| == |p| && forall i :: 0 <= i < |p| ==> ps[i] == Lit(p[i])
  }

  predicate Alike(s: string, p: string, same: Same) {
    |s| == |p| && forall i :: 0 <= i < |p| ==> same(p[i], s[i])
  }

  lemma {:induction false} Literally(s: string, ps: seq<Piece>, p: string, same: Same)
    requires AllLit(ps, p)
    ensures Means(s, ps, same) <==> Alike(s, p, same)
  {
    if p == [] {
      NoPieces(s, same);
    } else {
      FirstPiece(s, ps, same);
      forall i | 0 <= i <= |s| && Fits(s[..i], ps[0], same)
        ensures i == 1
      {
      }
      if s != [] {
        Literally(s[1..], ps[1..], p[1..], same);
        assert Fits(s[..1], ps[0], same) <==> same(p[0], s[0]);
        assert Alike(s, p, same) <==> same(p[0], s[0]) && Alike(s[1..], p[1..], same);
      }
    }
  }

  /** The first `i` characters are `a`, then anything or one character. */
  predicate Front(s: string, i: int, a: string, x: Piece, same: Same) {
    |a| <= i <= |s| && (x.One? ==> i == |a| + 1) && Alike(s[..|a|], a, same)
  }

  /** A pattern `a`, then anything or one character, then `b`, where `a` and `b` stand for themselves. */
  lemma {:induction false} Between(s: string, ps: seq<Piece>, x: Piece, qs: seq<Piece>, a: string, b: string,
      same: Same)
    requires AllLit(ps, a) && AllLit(qs, b) && !x.Lit?
    ensures Means(s, ps + [x] + qs, same) <==>
      |b| <= |s| && Front(s, |s| - |b|, a, x, same) && Alike(s[|s| - |b|..], b, same)
  {
    InTurn(s, ps + [x], qs, same);
    forall i | 0 <= i <= |s|
      ensures Means(s[i..], qs, same) <==> Alike(s[i..], b, same)
      ensures Means(s[..i], ps + [x], same) <==> Front(s, i, a, x, same)
    {
      Literally(s[i..], qs, b, same);
      ThenOne(s, i, ps, x, a, same);
    }
    forall i | 0 <= i <= |s| && Alike(s[i..], b, same)
      ensures |b| <= |s| && i == |s| - |b|
    {
      assert |s[i..]| == |b|;
    }
  }

  lemma {:induction false} ThenOne(s: string, n: nat, ps: seq<Piece>, x: Piece, a: string, same: Same)
    requires AllLit(ps, a) && !x.Lit? && n <= |s|
    ensures Means(s[..n], ps + [x], same) <==> Front(s, n, a, x, same)
  {
    var t := s[..n];
    InTurn(t, ps, [x], same);
    forall i | 0 <= i <= n
      ensures Means(t[..i], ps, same) <==> Alike(s[..i], a, same)
      ensures Means(t[i..], [x], same) <==> x.Any? || i + 1 == n
    {
      assert t[..i] == s[..i];
      Literally(t[..i], ps, a, same);
      OnePiece(t[i..], x, same);
    }
    forall i | 0 <= i <= n && Alike(s[..i], a, same)
      ensures i == |a|
    {
      assert |s[..i]| == i;
    }
  }

  lemma {:induction false} OnePiece(s: string, x: Piece, same: Same)
    ensures Means(s, [x], same) <==> Fits(s, x, same)
  {
    FirstPiece(s, [x], same);
    assert [x][1..] == [];
    forall i | 0 <= i <= |s|
      ensures Means(s[i..], [x][1..], same) <==> i == |s|
    {
      NoPieces(s[i..], same);
    }
    assert s[..|s|] == s;
  }

  /** GLOB: a pattern without `*` and `?` matches itself only, `*` stands for anything, `?` for one
      character. */
  lemma {:induction false} GlobReads(s: string, a: string, b: string)
    requires '*' !in a && '?' !in a && '*' !in b && '?' !in b
    ensures Means(s, GlobPieces(a), Equal()) <==> s == a
    ensures Means(s, GlobPieces(a + "*" + b), Equal()) <==>
      |a| + |b| <= |s| && s[..|a|] == a && s[|s| - |b|..] == b
    ensures Means(s, GlobPieces(a + "?" + b), Equal()) <==>
      |s| == |a| + 1 + |b| && s[..|a|] == a && s[|a| + 1..] == b
  {
    assert AllLit(GlobPieces(a), a) && AllLit(GlobPieces(b), b);
    assert GlobPieces(a + "*" + b) == GlobPieces(a) + [Any] + GlobPieces(b);
    assert GlobPieces(a + "?" + b) == GlobPieces(a) + [One] + GlobPieces(b);
    Literally(s, GlobPieces(a), a, Equal());
    Between(s, GlobPieces(a), Any, GlobPieces(b), a, b, Equal());
    Between(s, GlobPieces(a), One, GlobPieces(b), a, b, Equal());
    EqualAlike(s, a);
    if |a| <= |s| { EqualAlike(s[..|a|], a); }
    if |b| <= |s| { EqualAlike(s[|s| - |b|..], b); }
    assert |s| == |a| + 1 + |b| ==> s[|s| - |b|..] == s[|a| + 1..];
  }

  lemma {:induction false} EqualAlike(s: string, p: string)
    ensures Alike(s, p, Equal()) <==> s == p
  {
  }

  /** LIKE: the same with `%` and `_`, up to case. */
  lemma {:induction false} LikeReads(s: string, a: string, b: string, upper: char -> string)
    requires '%' !in a && '_' !in a && '%' !in b && '_' !in b
    ensures LikeMatch(s, a, upper) <==> |s| == |a| && forall i :: 0 <= i < |a| ==> upper(s[i]) == upper(a[i])
    ensures LikeMatch(s, a + "%" + b, upper) <==>
      && |a| + |b| <= |s| && (forall i :: 0 <= i < |a| ==> upper(s[i]) == upper(a[i]))
      && forall i :: 0 <= i < |b| ==> upper(s[|s| - |b| + i]) == upper(b[i])
    ensures LikeMatch(s, a + "_" + b, upper) <==>
      && |s| == |a| + 1 + |b| && (forall i :: 0 <= i < |a| ==> upper(s[i]) == upper(a[i]))
      && forall i :: 0 <= i < |b| ==> upper(s[|a| + 1 + i]) == upper(b[i])
  {
    hide LikeMatch, LikePieces;
    LikeAlone(s, a, upper);
    LikeAround(s, a, b, Any, upper);
    LikeAround(s, a, b, One, upper);
  }

  lemma {:induction false} LikeLits(p: string)
    requires '%' !in p && '_' !in p
    ensures AllLit(LikePieces(p), p)
  {
  }

  lemma {:induction false} LikeAlone(s: string, a: string, upper: char -> string)
    requires '%' !in a && '_' !in a
    ensures LikeMatch(s, a, upper) <==> |s| == |a| && forall i :: 0 <= i < |a| ==> upper(s[i]) == upper(a[i])
  {
    hide LikeMatch, LikePieces;
    LikeLits(a);
    LikeDecides(s, a, upper);
    Literally(s, LikePieces(a), a, UpToCase(upper));
    CaseAlike(s, a, upper);
  }

  lemma {:induction false} CaseAlike(s: string, p: string, upper: char -> string)
    ensures Alike(s, p, UpToCase(upper)) <==>
      |s| == |p| && forall i :: 0 <= i < |p| ==> upper(s[i]) == upper(p[i])
  {
  }

  lemma {:induction false} LikePatterns(a: string, b: string)
    ensures LikePieces(a + "%" + b) == LikePieces(a) + [Any] + LikePieces(b)
    ensures LikePieces(a + "_" + b) == LikePieces(a) + [One] + LikePieces(b)
  {
  }

  lemma {:induction false} LikeAround(s: string, a: string, b: string, x: Piece, upper: char -> string)
    requires '%' !in a && '_' !in a && '%' !in b && '_' !in b && !x.Lit?
    ensures LikeMatch(s, a + (if x.Any? then "%" else "_") + b, upper) <==>
      && (if x.Any? then |a| + |b| <= |s| else |s| == |a| + 1 + |b|)
      && (forall i :: 0 <= i < |a| ==> upper(s[i]) == upper(a[i]))
      && forall i :: 0 <= i < |b| ==> upper(s[|s| - |b| + i]) == upper(b[i])
  {
    hide LikeMatch, LikePieces, Means, Alike;
    var same := UpToCase(upper);
    LikeLits(a);
    LikeLits(b);
    LikePatterns(a, b);
    LikeDecides(s, a + (if x.Any? then "%" else "_") + b, upper);
    Between(s, LikePieces(a), x, LikePieces(b), a, b, same);
    if |a| <= |s| { CaseAlike(s[..|a|], a, upper); }
    if |b| <= |s| {
      CaseAlike(s[|s| - |b|..], b, upper);
      EndsAt(s, b, upper);
    }
  }

  lemma {:induction false} EndsAt(s: string, b: string, upper: char -> string)
    requires |b| <= |s|
    ensures (forall i :: 0 <= i < |b| ==> upper(s[|s| - |b|..][i]) == upper(b[i])) <==>
      forall i :: 0 <= i < |b| ==> upper(s[|s| - |b| + i]) == upper(b[i])
  {
    var t := s[|s| - |b|..];
    forall i | 0 <= i < |b|
      ensures t[i] == s[|s| - |b| + i]
    {
    }
    if forall i :: 0 <= i < |b| ==> upper(t[i]) == upper(b[i]) {
      forall i | 0 <= i < |b|
        ensures upper(s[|s| - |b| + i]) == upper(b[i])
      {
        assert upper(t[i]) == upper(b[i]);
      }
    }
  }
}
