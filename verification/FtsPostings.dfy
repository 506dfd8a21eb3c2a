/** What a posting list must say of the indexed documents, and how adding and removing a
    document keeps it true. */
module FtsPostings {
  import opened Keys
  import opened Wire
  import opened Records
  import opened Postings

  datatype Token = Token(term: string, offset: U32)

  type Docs = map<U64, seq<Token>>

  /** The offsets at which `term` occurs, in token order. */
  function Positions(ts: seq<Token>, term: string): seq<U32> {
    if ts == [] then []
    else
      var t := ts[|ts| - 1];
      Positions(ts[..|ts| - 1], term) + (if t.term == term then [t.offset] else [])
  }

  lemma {:induction false} PositionsBound(ts: seq<Token>, term: string)
    ensures |Positions(ts, term)| <= |ts|
    ensures Positions(ts, term) != [] <==> exists i :: 0 <= i < |ts| && ts[i].term == term
  {
    if ts != [] {
      var n := |ts| - 1;
      PositionsBound(ts[..n], term);
      if i :| 0 <= i < |ts| && ts[i].term == term {
        assert i < n ==> ts[..n][i].term == term;
      }
    }
  }

  /** Position `x` is listed exactly when some token of that term has that offset. */
  lemma {:induction false} PositionsAt(ts: seq<Token>, term: string, x: U32)
    ensures x in Positions(ts, term) <==> Token(term, x) in ts
  {
    if ts != [] {
      var n := |ts| - 1;
      PositionsAt(ts[..n], term, x);
      assert ts == ts[..n] + [ts[n]];
    }
  }

  /** The list names each document that contains the term once, with its true count and offsets. */
  ghost predicate TrueList(pl: PostingList, docs: Docs, term: string) {
    && pl.df == |pl.postings|
    && (forall i, j :: 0 <= i < j < |pl.postings| ==> pl.postings[i].docId != pl.postings[j].docId)
    && (forall i :: 0 <= i < |pl.postings| ==> TruePosting(pl.postings[i], docs, term))
    && (forall d :: d in docs && Positions(docs[d], term) != [] ==> d in DocIds(pl.postings))
  }

  ghost predicate TruePosting(p: Posting, docs: Docs, term: string) {
    && p.docId in docs && p.positions == Positions(docs[p.docId], term) != [] && p.tf == |p.positions|
  }

  function DocIds(ps: seq<Posting>): set<U64> {
    set p | p in ps :: p.docId
  }

  ghost predicate Absent(docs: Docs, term: string) {
    forall d :: d in docs ==> Positions(docs[d], term) == []
  }

  /** The index entry of `term` is right for `docs`: none if no document has it. */
  ghost predicate Listed(m: map<Key, Bytes>, docs: Docs, term: string) {
    if Text(term) in m then
      !Absent(docs, term) && GetList(m[Text(term)]).Some? && TrueList(GetList(m[Text(term)]).value, docs, term)
    else Absent(docs, term)
  }

  ghost predicate SameEntry(m: map<Key, Bytes>, m': map<Key, Bytes>, term: string) {
    && (Text(term) in m <==> Text(term) in m')
    && (Text(term) in m ==> m[Text(term)] == m'[Text(term)])
  }

  lemma {:induction false} DistinctCount(ps: seq<Posting>, ids: set<U64>)
    requires forall i, j :: 0 <= i < j < |ps| ==> ps[i].docId != ps[j].docId
    requires forall i :: 0 <= i < |ps| ==> ps[i].docId in ids
    ensures |ps| <= |ids|
  {
    if ps != [] {
      var n := |ps| - 1;
      DistinctCount(ps[..n], ids - {ps[n].docId});
    }
  }

  ghost predicate Bounded(docs: Docs) {
    |docs| < 0x1_0000_0000 && forall d :: d in docs ==> |docs[d]| < 0x1_0000_0000
  }

  lemma {:induction false} TrueIsSized(pl: PostingList, docs: Docs, term: string)
    requires TrueList(pl, docs, term) && Bounded(docs)
    ensures Sized(pl)
  {
    DistinctCount(pl.postings, docs.Keys);
    forall i | 0 <= i < |pl.postings|
      ensures |pl.postings[i].positions| < 0x1_0000_0000
    {
      assert TruePosting(pl.postings[i], docs, term);
      PositionsBound(docs[pl.postings[i].docId], term);
    }
  }

  /** Writing a true list makes the entry right. */
  lemma {:induction false} WriteEntry(m: map<Key, Bytes>, pl: PostingList, docs: Docs, term: string)
    requires TrueList(pl, docs, term) && Bounded(docs) && pl.postings != []
    ensures Listed(m[Text(term) := ListBytes(pl)], docs, term)
  {
    hide GetList, ListBytes, Positions;
    TrueIsSized(pl, docs, term);
    ListRoundTrip(pl);
    assert TruePosting(pl.postings[0], docs, term);
  }

  // ------------------------------------------------------------------
  // Adding a document.
  // ------------------------------------------------------------------

  lemma {:induction false} AddTrue(pl: PostingList, docs: Docs, term: string, doc: U64, tokens: seq<Token>)
    requires TrueList(pl, docs, term) && doc !in docs && Positions(tokens, term) != []
    requires Bounded(docs[doc := tokens])
    ensures pl.df + 1 < 0x1_0000_0000 && |Positions(tokens, term)| < 0x1_0000_0000
    ensures TrueList(PostingList(pl.df + 1,
        pl.postings + [Posting(doc, |Positions(tokens, term)|, Positions(tokens, term))]),
                     docs[doc := tokens], term)
  {
    hide Positions;
    var docs' := docs[doc := tokens];
    PositionsBound(tokens, term);
    assert |tokens| < 0x1_0000_0000 by { assert docs'[doc] == tokens; }
    DistinctCount(pl.postings, docs.Keys);
    assert docs'.Keys == docs.Keys + {doc};
    var p := Posting(doc, |Positions(tokens, term)|, Positions(tokens, term));
    var ps := pl.postings + [p];
    forall i | 0 <= i < |ps|
      ensures TruePosting(ps[i], docs', term)
    {
      assert i < |pl.postings| ==> TruePosting(pl.postings[i], docs, term);
    }
    forall d | d in docs' && Positions(docs'[d], term) != []
      ensures d in DocIds(ps)
    {
      if d == doc {
        assert p in ps;
      } else {
        var q :| q in pl.postings && q.docId == d;
        assert q in ps;
      }
    }
  }

  lemma {:induction false} EmptyTrue(docs: Docs, term: string)
    requires Absent(docs, term)
    ensures TrueList(PostingList(0, []), docs, term)
  {
  }

  /** A document without the term does not touch its entry. */
  lemma {:induction false} AddElsewhere(m: map<Key, Bytes>, docs: Docs, term: string, doc: U64, tokens: seq<Token>)
    requires Listed(m, docs, term) && doc !in docs && Positions(tokens, term) == []
    ensures Listed(m, docs[doc := tokens], term)
  {
    hide Positions, GetList;
    var docs' := docs[doc := tokens];
    if Text(term) in m {
      var pl := GetList(m[Text(term)]).value;
      forall i | 0 <= i < |pl.postings|
        ensures TruePosting(pl.postings[i], docs', term)
      {
        assert TruePosting(pl.postings[i], docs, term);
      }
      var d :| d in docs && Positions(docs[d], term) != [];
      assert docs'[d] == docs[d];
    }
  }

  // ------------------------------------------------------------------
  // Removing a document.
  // ------------------------------------------------------------------

  function Without(ps: seq<Posting>, doc: U64): (r: seq<Posting>)
    ensures |r| <= |ps|
  {
    if ps == [] then []
    else Without(ps[..|ps| - 1], doc) + (if ps[|ps| - 1].docId != doc then [ps[|ps| - 1]] else [])
  }

  lemma {:induction false} WithoutFacts(ps: seq<Posting>, doc: U64)
    ensures forall p :: p in Without(ps, doc) <==> p in ps && p.docId != doc
    ensures |Without(ps, doc)| == |ps| <==> doc !in DocIds(ps)
    ensures doc !in DocIds(ps) ==> Without(ps, doc) == ps
  {
    if ps != [] {
      var n := |ps| - 1;
      WithoutFacts(ps[..n], doc);
      assert ps == ps[..n] + [ps[n]];
      if doc in DocIds(ps) {
        var p :| p in ps && p.docId == doc;
        assert p in ps[..n] || p == ps[n];
      }
      if doc in DocIds(ps[..n]) {
        var p :| p in ps[..n] && p.docId == doc;
        assert p in ps;
      }
      assert ps[n] in ps;
    }
  }

  ghost predicate DistinctDocs(ps: seq<Posting>) {
    forall i, j :: 0 <= i < j < |ps| ==> ps[i].docId != ps[j].docId
  }

  lemma {:induction false} WithoutDistinct(ps: seq<Posting>, doc: U64)
    requires DistinctDocs(ps)
    ensures DistinctDocs(Without(ps, doc))
  {
    if ps != [] {
      var n := |ps| - 1;
      WithoutDistinct(ps[..n], doc);
      WithoutFacts(ps[..n], doc);
      var w := Without(ps[..n], doc);
      forall i | 0 <= i < |w|
        ensures w[i].docId != ps[n].docId
      {
        assert w[i] in w;
        assert w[i] in ps[..n];
      }
    }
  }

  lemma {:induction false} RemoveTrue(pl: PostingList, docs: Docs, term: string, doc: U64)
    requires TrueList(pl, docs, term)
    ensures TrueList(PostingList(|Without(pl.postings, doc)|, Without(pl.postings, doc)), docs - {doc}, term)
    ensures Without(pl.postings, doc) == [] ==> Absent(docs - {doc}, term)
  {
    hide Positions, Without;
    var ps, docs' := Without(pl.postings, doc), docs - {doc};
    WithoutFacts(pl.postings, doc);
    WithoutDistinct(pl.postings, doc);
    forall i | 0 <= i < |ps|
      ensures TruePosting(ps[i], docs', term)
    {
      assert ps[i] in ps;
      var j :| 0 <= j < |pl.postings| && pl.postings[j] == ps[i];
      assert TruePosting(pl.postings[j], docs, term);
    }
    forall d | d in docs' && Positions(docs'[d], term) != []
      ensures d in DocIds(ps)
    {
      var q :| q in pl.postings && q.docId == d;
      assert q in ps;
    }
  }

  /** A document whose id the entry does not name can go without touching the entry. */
  lemma {:induction false} RemoveElsewhere(m: map<Key, Bytes>, docs: Docs, term: string, doc: U64)
    requires Listed(m, docs, term)
    requires Text(term) in m ==> doc !in DocIds(GetList(m[Text(term)]).value.postings)
    ensures Listed(m, docs - {doc}, term)
  {
    hide Positions, GetList, Without;
    if Text(term) in m {
      var pl := GetList(m[Text(term)]).value;
      RemoveTrue(pl, docs, term, doc);
      WithoutFacts(pl.postings, doc);
      var d :| d in docs && Positions(docs[d], term) != [];
      assert d in DocIds(pl.postings);
      assert (docs - {doc})[d] == docs[d];
    }
  }
}
