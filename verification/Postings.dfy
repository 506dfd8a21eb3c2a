/** Posting lists and their byte form (src/fts/index.rs). */
module Postings {
  import opened Keys
  import opened Wire

  datatype Posting = Posting(docId: U64, tf: U32, positions: seq<U32>)

  datatype PostingList = PostingList(df: U32, postings: seq<Posting>)

  predicate Sized(pl: PostingList) {
    && |pl.postings| < 0x1_0000_0000
    && forall i :: 0 <= i < |pl.postings| ==> |pl.postings[i].positions| < 0x1_0000_0000
  }

  function PositionsBytes(ps: seq<U32>): Bytes {
    if ps == [] then [] else PutU32(ps[0]) + PositionsBytes(ps[1..])
  }

  function PostingBytes(p: Posting): Bytes {
    PutU64(p.docId) + PutU32(p.tf) + PutU32(AsU32(|p.positions|)) + PositionsBytes(p.positions)
  }

  function PostingsBytes(ps: seq<Posting>): Bytes {
    if ps == [] then [] else PostingBytes(ps[0]) + PostingsBytes(ps[1..])
  }

  function ListBytes(pl: PostingList): Bytes {
    PutU32(pl.df) + PutU32(AsU32(|pl.postings|)) + PostingsBytes(pl.postings)
  }

  function GetPositions(buf: Bytes, n: nat): (r: Option<(seq<U32>, nat)>)
    ensures r.Some? ==> r.value.1 <= |buf|
  {
    if n == 0 then Some(([], 0))
    else
      var x := GetU32(buf);
      if x.None? then None
      else
        var rest := GetPositions(buf[4..], n - 1);
        if rest.None? then None else Some(([x.value] + rest.value.0, 4 + rest.value.1))
  }

  function GetPosting(buf: Bytes): (r: Option<(Posting, nat)>)
    ensures r.Some? ==> 0 < r.value.1 <= |buf|
  {
    if |buf| < 16 then None
    else
      var ps := GetPositions(buf[16..], GetU32(buf[12..]).value);
      if ps.None? then None
      else Some((Posting(GetU64(buf).value, GetU32(buf[8..]).value, ps.value.0), 16 + ps.value.1))
  }

  function GetPostings(buf: Bytes, n: nat): (r: Option<(seq<Posting>, nat)>)
    ensures r.Some? ==> r.value.1 <= |buf|
    decreases n
  {
    if n == 0 then Some(([], 0))
    else
      var p := GetPosting(buf);
      if p.None? then None
      else
        var rest := GetPostings(buf[p.value.1..], n - 1);
        if rest.None? then None else Some(([p.value.0] + rest.value.0, p.value.1 + rest.value.1))
  }

  /** Reading a posting list; None is a read past the end of the bytes, a panic in the source. */
  function GetList(buf: Bytes): (r: Option<PostingList>) {
    if |buf| < 8 then None
    else
      var ps := GetPostings(buf[8..], GetU32(buf[4..]).value);
      if ps.None? then None else Some(PostingList(GetU32(buf).value, ps.value.0))
  }

  lemma {:induction false} PositionsRoundTrip(ps: seq<U32>, rest: Bytes)
    ensures GetPositions(PositionsBytes(ps) + rest, |ps|) == Some((ps, |PositionsBytes(ps)|))
  {
    hide GetU32, PutU32;
    if ps == [] {
      assert PositionsBytes(ps) + rest == rest;
    } else {
      var tail := PositionsBytes(ps[1..]) + rest;
      assert PositionsBytes(ps) + rest == PutU32(ps[0]) + tail;
      U32RoundTrip(ps[0], tail);
      assert (PutU32(ps[0]) + tail)[4..] == tail;
      PositionsRoundTrip(ps[1..], rest);
      assert ps == [ps[0]] + ps[1..];
    }
  }

  lemma {:induction false} PostingRoundTrip(p: Posting, rest: Bytes)
    requires |p.positions| < 0x1_0000_0000
    ensures GetPosting(PostingBytes(p) + rest) == Some((p, |PostingBytes(p)|))
  {
    hide GetU32, PutU32, GetU64, PutU64, GetPositions, PositionsBytes;
    var buf := PostingBytes(p) + rest;
    var a, b, c, d := PutU64(p.docId), PutU32(p.tf), PutU32(|p.positions|), PositionsBytes(p.positions) + rest;
    assert buf == a + (b + (c + d));
    assert buf[8..] == b + (c + d) && buf[12..] == c + d && buf[16..] == d;
    U64RoundTrip(p.docId, b + (c + d));
    U32RoundTrip(p.tf, c + d);
    U32RoundTrip(|p.positions|, d);
    PositionsRoundTrip(p.positions, rest);
  }

  lemma {:induction false} PostingsRoundTrip(ps: seq<Posting>, rest: Bytes)
    requires forall i :: 0 <= i < |ps| ==> |ps[i].positions| < 0x1_0000_0000
    ensures GetPostings(PostingsBytes(ps) + rest, |ps|) == Some((ps, |PostingsBytes(ps)|))
  {
    hide GetPosting, PostingBytes;
    if ps == [] {
      assert PostingsBytes(ps) + rest == rest;
    } else {
      var tail := PostingsBytes(ps[1..]) + rest;
      assert PostingsBytes(ps) + rest == PostingBytes(ps[0]) + tail;
      PostingRoundTrip(ps[0], tail);
      assert (PostingBytes(ps[0]) + tail)[|PostingBytes(ps[0])|..] == tail;
      PostingsRoundTrip(ps[1..], rest);
      assert ps == [ps[0]] + ps[1..];
    }
  }

  /** Reading a posting list undoes writing it. */
  lemma {:induction false} ListRoundTrip(pl: PostingList)
    requires Sized(pl)
    ensures GetList(ListBytes(pl)) == Some(pl)
  {
    hide GetU32, PutU32, GetPostings, PostingsBytes;
    var buf := ListBytes(pl);
    var a, b, c := PutU32(pl.df), PutU32(|pl.postings|), PostingsBytes(pl.postings) + [];
    assert buf == a + (b + c);
    assert buf[4..] == b + c && buf[8..] == c;
    U32RoundTrip(pl.df, b + c);
    U32RoundTrip(|pl.postings|, c);
    PostingsRoundTrip(pl.postings, []);
  }

  // ------------------------------------------------------------------
  // The loops of the codec.
  // ------------------------------------------------------------------

  lemma {:induction false} PositionsSnoc(ps: seq<U32>, x: U32)
    ensures PositionsBytes(ps + [x]) == PositionsBytes(ps) + PutU32(x)
  {
    hide PutU32;
    if ps == [] {
      assert PositionsBytes([x][1..]) == [] && PutU32(x) + [] == PutU32(x) == [] + PutU32(x);
    } else {
      PositionsSnoc(ps[1..], x);
      assert (ps + [x])[1..] == ps[1..] + [x];
    }
  }

  lemma {:induction false} PostingsSnoc(ps: seq<Posting>, p: Posting)
    ensures PostingsBytes(ps + [p]) == PostingsBytes(ps) + PostingBytes(p)
  {
    hide PostingBytes;
    if ps == [] {
      assert PostingsBytes([p][1..]) == [] && PostingBytes(p) + [] == PostingBytes(p) == [] + PostingBytes(p);
    } else {
      PostingsSnoc(ps[1..], p);
      assert (ps + [p])[1..] == ps[1..] + [p];
    }
  }

  method EncodePosting(buf: Bytes, p: Posting) returns (r: Bytes)
    ensures r == buf + PostingBytes(p)
  {
    hide PutU32, PutU64;
    var head := buf + PutU64(p.docId) + PutU32(p.tf) + PutU32(AsU32(|p.positions|));
    r := head;
    assert head + PositionsBytes(p.positions[..0]) == head;
    for i := 0 to |p.positions|
      invariant r == head + PositionsBytes(p.positions[..i])
    {
      PositionsSnoc(p.positions[..i], p.positions[i]);
      assert p.positions[..i + 1] == p.positions[..i] + [p.positions[i]];
      r := r + PutU32(p.positions[i]);
    }
    assert p.positions[..|p.positions|] == p.positions;
  }

  method EncodePostingList(pl: PostingList) returns (buf: Bytes)
    ensures buf == ListBytes(pl)
  {
    hide PutU32, PostingBytes;
    buf := PutU32(pl.df) + PutU32(AsU32(|pl.postings|));
    ghost var head := buf;
    assert head + PostingsBytes(pl.postings[..0]) == head;
    for i := 0 to |pl.postings|
      invariant buf == head + PostingsBytes(pl.postings[..i])
    {
      PostingsSnoc(pl.postings[..i], pl.postings[i]);
      assert pl.postings[..i + 1] == pl.postings[..i] + [pl.postings[i]];
      buf := EncodePosting(buf, pl.postings[i]);
    }
    assert pl.postings[..|pl.postings|] == pl.postings;
  }

  method DecodePosting(buf: Bytes) returns (r: Option<(Posting, nat)>)
    ensures r == GetPosting(buf)
  {
    hide GetU32, GetU64, Then;
    if |buf| < 16 {
      return None;
    }
    var n, from := GetU32(buf[12..]).value, buf[16..];
    var cur, positions: seq<U32> := 0, [];
    assert from[0..] == from;
    ThenNone(GetPositions(from, n));
    for i := 0 to n
      invariant 0 <= cur <= |from| && GetPositions(from, n) == Then(positions, cur, GetPositions(from[cur..], n - i))
    {
      var x := GetU32(from[cur..]);
      PositionsOn(from[cur..], n - i);
      if x.None? {
        ThenFails(positions, cur);
        return None;
      }
      assert from[cur..][4..] == from[cur + 4..];
      ThenOne<U32>(positions, cur, x.value, 4, GetPositions(from[cur + 4..], n - i - 1));
      positions, cur := positions + [x.value], cur + 4;
    }
    ThenEnd(positions, cur);
    return Some((Posting(GetU64(buf).value, GetU32(buf[8..]).value, positions), 16 + cur));
  }

  lemma {:induction false} PositionsOn(buf: Bytes, n: nat)
    requires n > 0
    ensures var x := GetU32(buf);
      GetPositions(buf, n) == if x.None? then None else Then<U32>([x.value], 4, GetPositions(buf[4..], n - 1))
    ensures GetU32(buf).Some? ==> |buf| >= 4
  {
  }

  method DecodePostingList(buf: Bytes) returns (r: Option<PostingList>)
    ensures r == GetList(buf)
  {
    hide GetU32, GetPosting, Then;
    if |buf| < 8 {
      return None;
    }
    var n, from := GetU32(buf[4..]).value, buf[8..];
    var cur, postings: seq<Posting> := 0, [];
    assert from[0..] == from;
    ThenNone(GetPostings(from, n));
    for i := 0 to n
      invariant 0 <= cur <= |from| && GetPostings(from, n) == Then(postings, cur, GetPostings(from[cur..], n - i))
    {
      var p := DecodePosting(from[cur..]);
      PostingsOn(from[cur..], n - i);
      if p.None? {
        ThenFails(postings, cur);
        return None;
      }
      assert from[cur..][p.value.1..] == from[cur + p.value.1..];
      ThenOne(postings, cur, p.value.0, p.value.1, GetPostings(from[cur + p.value.1..], n - i - 1));
      postings, cur := postings + [p.value.0], cur + p.value.1;
    }
    ThenEnd(postings, cur);
    return Some(PostingList(GetU32(buf).value, postings));
  }

  lemma {:induction false} PostingsOn(buf: Bytes, n: nat)
    requires n > 0
    ensures var p := GetPosting(buf);
      GetPostings(buf, n) == if p.None? then None
          else Then([p.value.0], p.value.1, GetPostings(buf[p.value.1..], n - 1))
  {
    hide GetPosting;
  }
}
