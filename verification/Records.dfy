/** Sorted record sequences: the meaning of a tree, and the plain-map view of them. */
module Records {
  import opened Keys

  datatype Record = Record(key: Key, value: Bytes)

  ghost predicate Ascending(s: seq<Record>) {
    forall i, j :: 0 <= i < j < |s| ==> Rank(s[i].key) < Rank(s[j].key)
  }

  ghost predicate Within(s: seq<Record>, lo: real, hi: real) {
    forall i :: 0 <= i < |s| ==> lo <= Rank(s[i].key) < hi
  }

  ghost predicate AllBelow(s: seq<Record>, k: Key) {
    forall i :: 0 <= i < |s| ==> Rank(s[i].key) < Rank(k)
  }

  ghost predicate AllAbove(s: seq<Record>, k: Key) {
    forall i :: 0 <= i < |s| ==> Rank(k) < Rank(s[i].key)
  }

  /** `s` with the binding of `r.key` set to `r.value`, keeping the key order. */
  function Put(s: seq<Record>, r: Record): seq<Record> {
    if s == [] then [r]
    else if Less(s[0].key, r.key) then [s[0]] + Put(s[1..], r)
    else if s[0].key == r.key then [r] + s[1..]
    else [r] + s
  }

  /** `s` without the binding of `k`. */
  function Drop(s: seq<Record>, k: Key): seq<Record> {
    if s == [] then []
    else if s[0].key == k then s[1..]
    else [s[0]] + Drop(s[1..], k)
  }

  function Lookup(s: seq<Record>, k: Key): Option<Bytes> {
    if s == [] then None
    else if s[0].key == k then Some(s[0].value)
    else Lookup(s[1..], k)
  }

  /** The records whose key lies in the closed interval from `a` to `b`. */
  function Between(s: seq<Record>, a: Key, b: Key): seq<Record> {
    if s == [] then []
    else (if AtMost(a, s[0].key) && AtMost(s[0].key, b) then [s[0]] else []) + Between(s[1..], a, b)
  }

  function ToMap(s: seq<Record>): map<Key, Bytes> {
    if s == [] then map[]
    else ToMap(s[1..])[s[0].key := s[0].value]
  }

  // ------------------------------------------------------------------
  // Locality: an operation on key k only looks at the part that can hold k.
  // ------------------------------------------------------------------

  lemma {:induction false} PutLocal(a: seq<Record>, b: seq<Record>, c: seq<Record>, r: Record)
    requires AllBelow(a, r.key) && AllAbove(c, r.key)
    ensures Put(a + b + c, r) == a + Put(b, r) + c
  {
    if a != [] {
      assert (a + b + c)[1..] == a[1..] + b + c;
      PutLocal(a[1..], b, c, r);
      assert a == [a[0]] + a[1..];
    } else {
      assert a + b + c == b + c && [] + Put(b, r) + c == Put(b, r) + c;
      PutPrefix(b, c, r);
    }
  }

  lemma {:induction false} PutPrefix(b: seq<Record>, c: seq<Record>, r: Record)
    requires AllAbove(c, r.key)
    ensures Put(b + c, r) == Put(b, r) + c
  {
    if b != [] {
      assert (b + c)[1..] == b[1..] + c;
      PutPrefix(b[1..], c, r);
    } else {
      assert b + c == c;
    }
  }

  lemma {:induction false} DropLocal(a: seq<Record>, b: seq<Record>, c: seq<Record>, k: Key)
    requires AllBelow(a, k) && AllAbove(c, k)
    ensures Drop(a + b + c, k) == a + Drop(b, k) + c
  {
    if a != [] {
      assert (a + b + c)[1..] == a[1..] + b + c;
      DropLocal(a[1..], b, c, k);
      assert a == [a[0]] + a[1..];
    } else {
      assert a + b + c == b + c && [] + Drop(b, k) + c == Drop(b, k) + c;
      DropPrefix(b, c, k);
    }
  }

  lemma {:induction false} DropPrefix(b: seq<Record>, c: seq<Record>, k: Key)
    requires AllAbove(c, k)
    ensures Drop(b + c, k) == Drop(b, k) + c
  {
    if b != [] {
      assert (b + c)[1..] == b[1..] + c;
      DropPrefix(b[1..], c, k);
    } else {
      assert b + c == c;
      DropAbsent(c, k);
    }
  }

  lemma {:induction false} DropAbsent(s: seq<Record>, k: Key)
    requires forall i :: 0 <= i < |s| ==> s[i].key != k
    ensures Drop(s, k) == s && Lookup(s, k) == None
  {
    if s != [] {
      DropAbsent(s[1..], k);
      assert s == [s[0]] + s[1..];
    }
  }

  lemma {:induction false} LookupLocal(a: seq<Record>, b: seq<Record>, c: seq<Record>, k: Key)
    requires AllBelow(a, k) && AllAbove(c, k)
    ensures Lookup(a + b + c, k) == Lookup(b, k)
  {
    if a != [] {
      assert (a + b + c)[1..] == a[1..] + b + c;
      LookupLocal(a[1..], b, c, k);
    } else if b != [] {
      assert (a + b + c)[1..] == a + b[1..] + c;
      LookupLocal(a, b[1..], c, k);
    } else {
      assert a + b + c == c;
      DropAbsent(c, k);
    }
  }

  lemma {:induction false} BetweenConcat(s: seq<Record>, t: seq<Record>, a: Key, b: Key)
    ensures Between(s + t, a, b) == Between(s, a, b) + Between(t, a, b)
  {
    if s == [] {
      assert s + t == t;
    } else {
      assert (s + t)[1..] == s[1..] + t;
      BetweenConcat(s[1..], t, a, b);
    }
  }

  lemma {:induction false} BetweenOutside(s: seq<Record>, a: Key, b: Key)
    requires forall i :: 0 <= i < |s| ==> Rank(s[i].key) < Rank(a) || Rank(b) < Rank(s[i].key)
    ensures Between(s, a, b) == []
  {
    if s != [] {
      BetweenOutside(s[1..], a, b);
    }
  }

  // ------------------------------------------------------------------
  // The plain map that an ascending sequence stands for.
  // ------------------------------------------------------------------

  /** `Lookup` is lookup in the map. */
  lemma {:induction false} LookupIsMap(s: seq<Record>, k: Key)
    ensures Lookup(s, k) == if k in ToMap(s) then Some(ToMap(s)[k]) else None
  {
    if s != [] {
      LookupIsMap(s[1..], k);
    }
  }

  /** An ascending sequence has as many records as its map has keys. */
  lemma {:induction false} ToMapSize(s: seq<Record>)
    requires Ascending(s)
    ensures |ToMap(s)| == |s|
  {
    if s != [] {
      ToMapSize(s[1..]);
      HeadAbsent(s);
    }
  }

  lemma {:induction false} HeadAbsent(s: seq<Record>)
    requires Ascending(s) && s != []
    ensures s[0].key !in ToMap(s[1..])
  {
    DropAbsent(s[1..], s[0].key);
    LookupIsMap(s[1..], s[0].key);
  }

  /** `Put` is map update. */
  lemma {:induction false} PutIsMap(s: seq<Record>, r: Record)
    ensures ToMap(Put(s, r)) == ToMap(s)[r.key := r.value]
  {
    if s != [] && Less(s[0].key, r.key) {
      PutIsMap(s[1..], r);
      assert Put(s, r)[1..] == Put(s[1..], r);
    } else if s != [] {
      assert Put(s, r)[1..] == s || Put(s, r)[1..] == s[1..];
    }
  }

  lemma {:induction false} PutSize(s: seq<Record>, r: Record)
    requires Ascending(s)
    ensures |Put(s, r)| == |s| + (if Lookup(s, r.key).None? then 1 else 0)
  {
    if s != [] && Less(s[0].key, r.key) {
      PutSize(s[1..], r);
    } else if s != [] && s[0].key != r.key {
      DropAbsent(s, r.key);
    }
  }

  lemma {:induction false} PutAbove(s: seq<Record>, r: Record, k: Key)
    requires AllAbove(s, k) && Rank(k) < Rank(r.key)
    ensures AllAbove(Put(s, r), k)
  {
    if s != [] {
      PutAbove(s[1..], r, k);
    }
  }

  lemma {:induction false} PutWithin(s: seq<Record>, r: Record, lo: real, hi: real)
    requires Within(s, lo, hi) && lo <= Rank(r.key) < hi
    ensures Within(Put(s, r), lo, hi)
  {
    if s != [] {
      PutWithin(s[1..], r, lo, hi);
    }
  }

  lemma {:induction false} PutAscending(s: seq<Record>, r: Record)
    requires Ascending(s)
    ensures Ascending(Put(s, r))
  {
    if s != [] && Less(s[0].key, r.key) {
      PutAscending(s[1..], r);
      PutAbove(s[1..], r, s[0].key);
    }
  }

  /** `Drop` is map removal. */
  lemma {:induction false} DropIsMap(s: seq<Record>, k: Key)
    requires Ascending(s)
    ensures ToMap(Drop(s, k)) == ToMap(s) - {k}
    ensures |Drop(s, k)| == |s| - (if Lookup(s, k).Some? then 1 else 0)
  {
    if s != [] && s[0].key == k {
      HeadAbsent(s);
    } else if s != [] {
      DropIsMap(s[1..], k);
      assert Drop(s, k)[1..] == Drop(s[1..], k);
    }
  }

  lemma {:induction false} DropAbove(s: seq<Record>, k: Key, x: Key)
    requires AllAbove(s, x)
    ensures AllAbove(Drop(s, k), x)
  {
    if s != [] {
      DropAbove(s[1..], k, x);
    }
  }

  lemma {:induction false} DropWithin(s: seq<Record>, k: Key, lo: real, hi: real)
    requires Within(s, lo, hi)
    ensures Within(Drop(s, k), lo, hi)
  {
    if s != [] {
      DropWithin(s[1..], k, lo, hi);
    }
  }

  lemma {:induction false} DropAscending(s: seq<Record>, k: Key)
    requires Ascending(s)
    ensures Ascending(Drop(s, k))
  {
    if s != [] && s[0].key != k {
      DropAscending(s[1..], k);
      DropAbove(s[1..], k, s[0].key);
    }
  }

  /** `Between` keeps exactly the records in the interval, in order. */
  lemma {:induction false} BetweenIsFilter(s: seq<Record>, a: Key, b: Key)
    requires Ascending(s)
    ensures Ascending(Between(s, a, b))
    ensures forall x :: x in Between(s, a, b) <==> x in s && AtMost(a, x.key) && AtMost(x.key, b)
  {
    hide Rank, Less, TextLess;
    if s != [] {
      BetweenIsFilter(s[1..], a, b);
      var t := Between(s[1..], a, b);
      assert s == [s[0]] + s[1..];
      forall i | 0 <= i < |t|
        ensures Rank(s[0].key) < Rank(t[i].key)
      {
        assert t[i] in t;
        assert t[i] in s[1..];
      }
    }
  }

  /** Integer keys come first and ascend as numbers. */
  ghost predicate NumbersAscend(s: seq<Record>) {
    forall i, j :: 0 <= i < j < |s| && s[j].key.Integer? ==> s[i].key.Integer? && s[i].key.v < s[j].key.v
  }

  lemma {:induction false} AscendAsNumbers(s: seq<Record>)
    requires Ascending(s)
    ensures NumbersAscend(s)
  {
    forall i, j | 0 <= i < j < |s| && s[j].key.Integer?
      ensures s[i].key.Integer? && s[i].key.v < s[j].key.v
    {
      assert Rank(s[i].key) < Rank(s[j].key);
      assert Less(s[i].key, s[j].key);
      KindsOrdered(s[i].key, s[j].key);
      KindsOrdered(s[j].key, s[i].key);
    }
  }

  /** What an insert does to length and map. */
  lemma {:induction false} PutFacts(s: seq<Record>, r: Record)
    requires Ascending(s)
    ensures |Put(s, r)| == |s| + (if r.key in ToMap(s) then 0 else 1)
    ensures ToMap(Put(s, r)) == ToMap(s)[r.key := r.value] && (r.key in ToMap(s) ==> s != [])
  {
    hide Ascending;
    PutSize(s, r);
    PutIsMap(s, r);
    LookupIsMap(s, r.key);
  }
}
