/** Index keys and their order (src/btree/node.rs). */
module Keys {

  type I64 = x: int | -0x8000_0000_0000_0000 <= x < 0x8000_0000_0000_0000
  type Byte = x: int | 0 <= x < 256
  type Bytes = seq<Byte>

  datatype Option<+T> = None | Some(value: T)

  /** A key is an integer or a text; texts are sequences of Unicode scalar values,
      whose order agrees with the byte order of their UTF-8 encodings. */
  datatype Key = Integer(v: I64) | Text(s: string)

  /** The derived order: integers before texts, texts lexicographically. */
  predicate Less(a: Key, b: Key)
    ensures Less(a, b) <==> Rank(a) < Rank(b)
    ensures !Less(a, b) ==> a == b || Rank(b) < Rank(a)
  {
    RankText(a);
    RankText(b);
    match (a, b)
    case (Integer(x), Integer(y)) => x < y
    case (Integer(_), Text(_)) => true
    case (Text(_), Integer(_)) => false
    case (Text(s), Text(t)) => TextLess(s, t)
  }

  predicate TextLess(s: string, t: string)
    ensures TextLess(s, t) <==> TextRank(s) < TextRank(t)
    ensures !TextLess(s, t) ==> s == t || TextRank(t) < TextRank(s)
  {
    TextRankBounds(s);
    TextRankBounds(t);
    if t == [] then false
    else if s == [] then true
    else
      TextRankBounds(s[1..]);
      TextRankBounds(t[1..]);
      assert s == [s[0]] + s[1..] && t == [t[0]] + t[1..];
      s[0] < t[0] || (s[0] == t[0] && TextLess(s[1..], t[1..]))
  }

  predicate AtMost(a: Key, b: Key) {
    !Less(b, a)
  }

  // ------------------------------------------------------------------
  // An order embedding of keys into the reals.  Comparing ranks gives the
  // solver transitivity and totality of the key order for free.
  // ------------------------------------------------------------------

  ghost const MIN_RANK: real := -9223372036854775808.0
  ghost const MAX_RANK: real := 9223372036854775809.0

  ghost function TextRank(s: string): real {
    if s == [] then 0.0
    else ((s[0] as int + 1) as real + TextRank(s[1..])) / 1114113.0
  }

  ghost function Rank(k: Key): real {
    match k
    case Integer(v) => v as real
    case Text(s) => 9223372036854775808.0 + TextRank(s)
  }

  lemma {:induction false} TextRankBounds(s: string)
    ensures 0.0 <= TextRank(s) < 1.0
    ensures s != [] ==> 0.0 < TextRank(s)
  {
    if s != [] {
      TextRankBounds(s[1..]);
    }
  }

  lemma {:induction false} RankText(k: Key)
    ensures MIN_RANK <= Rank(k) < MAX_RANK
    ensures k.Text? ==> 9223372036854775808.0 <= Rank(k)
    ensures k.Integer? ==> Rank(k) < 9223372036854775808.0
  {
    if k.Text? {
      TextRankBounds(k.s);
    }
  }

  /** Every rank lies in the half-open interval the whole tree covers. */
  lemma {:induction false} RankBounds(k: Key)
    ensures MIN_RANK <= Rank(k) < MAX_RANK
  {
    RankText(k);
  }

  lemma {:induction false} RankInjective(a: Key, b: Key)
    requires Rank(a) == Rank(b)
    ensures a == b
  {
    assert !Less(a, b);
  }

  // ------------------------------------------------------------------
  // The order without ranks.
  // ------------------------------------------------------------------

  /** Integers compare as numbers, and every integer is below every text. */
  lemma {:induction false} KindsOrdered(a: Key, b: Key)
    ensures a.Integer? && b.Integer? ==> (Less(a, b) <==> a.v < b.v)
    ensures a.Integer? && b.Text? ==> Less(a, b) && !Less(b, a)
    ensures a.Text? && b.Text? ==> (Less(a, b) <==> TextLess(a.s, b.s))
  {
  }

  /** The first `k` characters agree, and there the first text ends or has the smaller character. */
  predicate DiffersAt(s: string, t: string, k: nat) {
    && k <= |s| && k < |t| && s[..k] == t[..k]
    && (k == |s| || s[k] < t[k])
  }

  lemma {:induction false} SameFront(s: string, t: string, k: nat)
    requires DiffersAt(s, t, k)
    ensures k > 0 ==> s[0] == t[0]
  {
    assert k > 0 ==> s[..k][0] == t[..k][0];
  }

  /** Texts compare at the first place where they differ. */
  lemma {:induction false} TextsOrdered(s: string, t: string)
    ensures TextLess(s, t) <==> exists k: nat :: DiffersAt(s, t, k)
  {
    if s == [] {
      assert t != [] ==> DiffersAt(s, t, 0);
    } else if t != [] {
      if s[0] != t[0] {
        assert s[0] < t[0] ==> DiffersAt(s, t, 0);
        forall k: nat | DiffersAt(s, t, k)
          ensures k == 0
        {
          SameFront(s, t, k);
        }
      } else {
        TextsOrdered(s[1..], t[1..]);
        if k: nat :| DiffersAt(s[1..], t[1..], k) {
          assert s[..k + 1] == [s[0]] + s[1..][..k] && t[..k + 1] == [t[0]] + t[1..][..k];
          assert DiffersAt(s, t, k + 1);
        }
        if k: nat :| DiffersAt(s, t, k) {
          assert k > 0;
          assert s[1..][..k - 1] == s[..k][1..] && t[1..][..k - 1] == t[..k][1..];
          assert DiffersAt(s[1..], t[1..], k - 1);
        }
      }
    }
  }

  /** Between two integer keys, ends included, lie exactly the integers between them. */
  lemma {:induction false} IntegersBetween(a: Key, b: Key)
    requires a.Integer? && b.Integer?
    ensures forall k :: AtMost(a, k) && AtMost(k, b) <==> k.Integer? && a.v <= k.v <= b.v
  {
    forall k
      ensures AtMost(a, k) && AtMost(k, b) <==> k.Integer? && a.v <= k.v <= b.v
    {
      KindsOrdered(k, a);
      KindsOrdered(b, k);
      KindsOrdered(k, b);
    }
  }
}
