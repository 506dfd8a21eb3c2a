/** The inverted index over the B+Tree (src/fts/index.rs).  Scores are left out: a search is the
    set of documents it returns. */
module FtsIndex {
  import opened Keys
  import opened Wire
  import opened Records
  import opened Trees
  import opened Storage
  import opened BPlusTrees
  import opened TreeSteps
  import opened Postings
  import opened FtsPostings

  /** The upper end of the key range that removal scans. */
  const LAST_TERM: string := ['\U{10FFFF}', '\U{10FFFF}', '\U{10FFFF}', '\U{10FFFF}']

  predicate Scanned(term: string) { AtMost(Text(term), Text(LAST_TERM)) }

  ghost predicate ScannedDoc(ts: seq<Token>) { forall i :: 0 <= i < |ts| ==> Scanned(ts[i].term) }

  /** Every entry is right, and every key is a term within the scanned range. */
  ghost predicate Indexed(m: map<Key, Bytes>, docs: Docs) {
    && (forall term :: Listed(m, docs, term))
    && (forall k :: k in m ==> k.Text? && Scanned(k.s))
  }

  /** The posting list without `doc`, if it named `doc`. */
  function Shrunk(value: Bytes, doc: U64): Option<PostingList> {
    var pl := GetList(value);
    if pl.None? || |Without(pl.value.postings, doc)| == |pl.value.postings| then None
    else
      var kept := Without(pl.value.postings, doc);
      Some(PostingList(AsU32(|kept|), kept))
  }

  function Updates(rs: seq<Record>, doc: U64): seq<(string, PostingList)> {
    if rs == [] then []
    else
      var r := rs[|rs| - 1];
      var more := Updates(rs[..|rs| - 1], doc);
      if r.key.Text? && Shrunk(r.value, doc).Some? then more + [(r.key.s, Shrunk(r.value, doc).value)] else more
  }

  ghost predicate Holds(m: map<Key, Bytes>, rs: seq<Record>) {
    forall i :: 0 <= i < |rs| ==> rs[i].key in m && m[rs[i].key] == rs[i].value
  }

  ghost predicate UpdateOf(u: (string, PostingList), m: map<Key, Bytes>, doc: U64) {
    Text(u.0) in m && Shrunk(m[Text(u.0)], doc) == Some(u.1)
  }

  ghost predicate KeyIn(rs: seq<Record>, term: string) {
    exists i :: 0 <= i < |rs| && rs[i].key == Text(term)
  }

  lemma {:induction false} UpdatesFacts(rs: seq<Record>, doc: U64, m: map<Key, Bytes>)
    requires Ascending(rs) && Holds(m, rs)
    ensures forall j :: 0 <= j < |Updates(rs, doc)| ==> UpdateOf(Updates(rs, doc)[j], m, doc)
    ensures forall j :: 0 <= j < |Updates(rs, doc)| ==> KeyIn(rs, Updates(rs, doc)[j].0)
    ensures forall i, j :: 0 <= i < j < |Updates(rs, doc)| ==> Updates(rs, doc)[i].0 != Updates(rs, doc)[j].0
    ensures forall i :: 0 <= i < |rs| && rs[i].key.Text? && Shrunk(rs[i].value, doc).Some? ==>
      (rs[i].key.s, Shrunk(rs[i].value, doc).value) in Updates(rs, doc)
  {
    hide Shrunk;
    if rs != [] {
      var n := |rs| - 1;
      UpdatesFacts(rs[..n], doc, m);
      var us := Updates(rs[..n], doc);
      forall j | 0 <= j < |us|
        ensures Text(us[j].0) != rs[n].key && KeyIn(rs, us[j].0)
      {
        assert KeyIn(rs[..n], us[j].0);
        var i :| 0 <= i < |rs[..n]| && rs[..n][i].key == Text(us[j].0);
        assert rs[i].key == Text(us[j].0) && Rank(rs[i].key) < Rank(rs[n].key);
      }
      forall i | 0 <= i < |rs| && rs[i].key.Text? && Shrunk(rs[i].value, doc).Some?
        ensures (rs[i].key.s, Shrunk(rs[i].value, doc).value) in Updates(rs, doc)
      {
        if i < n {
          assert rs[..n][i] == rs[i];
        }
      }
    }
  }

  lemma {:induction false} HoldsAll(rs: seq<Record>)
    requires Ascending(rs)
    ensures Holds(ToMap(rs), rs)
    ensures forall k :: k in ToMap(rs) ==> exists i :: 0 <= i < |rs| && rs[i].key == k
  {
    if rs != [] {
      HoldsAll(rs[1..]);
      forall i | 0 < i < |rs|
        ensures rs[i].key in ToMap(rs) && ToMap(rs)[rs[i].key] == rs[i].value
      {
        assert rs[1..][i - 1] == rs[i];
        assert Rank(rs[0].key) < Rank(rs[i].key);
      }
      forall k | k in ToMap(rs)
        ensures exists i :: 0 <= i < |rs| && rs[i].key == k
      {
        if k != rs[0].key {
          var i :| 0 <= i < |rs[1..]| && rs[1..][i].key == k;
          assert rs[i + 1].key == k;
        }
      }
    }
  }

  /** The scan covers the whole index. */
  lemma {:induction false} ScanCovers(rs: seq<Record>)
    requires forall i :: 0 <= i < |rs| ==> rs[i].key.Text? && Scanned(rs[i].key.s)
    ensures Between(rs, Text(""), Text(LAST_TERM)) == rs
  {
    if rs != [] {
      ScanCovers(rs[1..]);
      assert rs == [rs[0]] + rs[1..];
      assert AtMost(Text(""), rs[0].key);
    }
  }

  /** After the first `n` updates are applied. */
  ghost predicate Progress(m0: map<Key, Bytes>, m: map<Key, Bytes>, us: seq<(string, PostingList)>, n: nat,
      docs': Docs, term: string)
    requires n <= |us|
  {
    if exists j :: 0 <= j < n && us[j].0 == term then Listed(m, docs', term) else SameEntry(m0, m, term)
  }

  /** The recorded document lengths are the true ones. */
  ghost predicate Lengths(docLen: map<U64, nat>, docs: Docs) {
    docLen.Keys == docs.Keys && forall d :: d in docs ==> docLen[d] == |docs[d]|
  }

  lemma {:induction false} Reinserted(docs: Docs, doc: U64, tokens: seq<Token>)
    ensures (docs - {doc})[doc := tokens] == docs[doc := tokens]
  {
  }

  lemma {:induction false} LengthsAdded(docLen: map<U64, nat>, docs: Docs, doc: U64, tokens: seq<Token>)
    requires Lengths(docLen, docs)
    ensures Lengths(docLen[doc := |tokens|], docs[doc := tokens])
  {
  }

  lemma {:induction false} LengthsDropped(docLen: map<U64, nat>, docs: Docs, doc: U64)
    requires Lengths(docLen, docs)
    ensures Lengths(docLen - {doc}, docs - {doc})
    ensures doc !in docs ==> docs - {doc} == docs && docLen - {doc} == docLen
  {
  }

  class InvertedIndex {
    const store: PageStore
    const tree: BPlusTree
    const lower: string -> string
    var docLen: map<U64, nat>
    var nDocs: nat
    ghost var docs: Docs

    ghost predicate TreeOk()
      reads tree, store
    {
      tree.store == store && !store.file && tree.order == 64 && tree.Valid() && tree.size == |tree.Contents()|
    }

    ghost predicate Valid()
      reads this, tree, store
    {
      && TreeOk() && Indexed(tree.Model(), docs) && Bounded(docs)
      && Lengths(docLen, docs) && nDocs == |docs|
    }

    constructor (lower: string -> string)
      ensures Valid() && docs == map[] && this.lower == lower && fresh(tree) && fresh(store)
    {
      var pages := new PageStore.InMemory();
      store := pages;
      tree := new BPlusTree(64, pages);
      this.lower := lower;
      docLen, nDocs, docs := map[], 0, map[];
    }

    /** One term of a document being indexed. */
    method AddPosting(term: string, doc: U64, positions: seq<U32>, ghost ds: Docs, ghost tokens: seq<Token>)
      requires TreeOk() && Listed(tree.Model(), ds, term)
      requires doc !in ds && positions == Positions(tokens, term) != [] && Bounded(ds[doc := tokens])
      modifies tree, store
      ensures TreeOk() && Listed(tree.Model(), ds[doc := tokens], term)
      ensures tree.Model().Keys == old(tree.Model()).Keys + {Text(term)}
      ensures forall k :: k != Text(term) && k in tree.Model() ==> tree.Model()[k] == old(tree.Model())[k]
    {
      hide Positions, GetList, ListBytes, Good, Ids, Flat, ToMap, TrueList, Bounded;
      var pl := FetchList(term, ds);
      AddTrue(pl, ds, term, doc, tokens);
      pl := PostingList(pl.df + 1, pl.postings + [Posting(doc, |positions|, positions)]);
      WriteEntry(tree.Model(), pl, ds[doc := tokens], term);
      var bytes := EncodePostingList(pl);
      tree.Insert(Text(term), bytes);
    }

    /** The list of the term, empty if there is none. */
    method FetchList(term: string, ghost ds: Docs) returns (pl: PostingList)
      requires TreeOk() && Listed(tree.Model(), ds, term)
      ensures TrueList(pl, ds, term)
    {
      hide Positions, GetList, ListBytes, Good, Ids, Flat, ToMap;
      var found := tree.Search(Text(term));
      if found.Some? {
        var got := DecodePostingList(found.value);
        return got.value;
      }
      EmptyTrue(ds, term);
      return PostingList(0, []);
    }

    method IndexDocument(doc: U64, tokens: seq<Token>)
      requires Valid() && |tokens| < 0x1_0000_0000 && |docs| + 1 < 0x1_0000_0000 && ScannedDoc(tokens)
      modifies this, tree, store
      ensures Valid() && docs == old(docs)[doc := tokens]
    {
      hide *;
      RemoveDocument(doc);
      IndexNew(doc, tokens);
      Reinserted(old(docs), doc, tokens);
    }

    method IndexNew(doc: U64, tokens: seq<Token>)
      requires Valid() && |tokens| < 0x1_0000_0000 && |docs| + 1 < 0x1_0000_0000 && ScannedDoc(tokens) && doc !in docs
      modifies this, tree, store
      ensures Valid() && docs == old(docs)[doc := tokens]
    {
      hide Positions, Listed, Good, Ids, Flat, ToMap, Scanned, Indexed, Bounded, ScannedDoc, Counted, TreeOk;
      AddedSize(docs, doc, tokens);
      LengthsAdded(docLen, docs, doc, tokens);
      var tfMap := Count(tokens);
      docLen := docLen[doc := |tokens|];
      nDocs := nDocs + 1;
      AddAll(doc, tokens, tfMap, docs);
      docs := docs[doc := tokens];
    }

    /** The terms of the document, in whatever order the map yields them. */
    method AddAll(doc: U64, tokens: seq<Token>, tfMap: map<string, (nat, seq<U32>)>, ghost ds: Docs)
      requires TreeOk() && Indexed(tree.Model(), ds) && doc !in ds && Bounded(ds[doc := tokens]) && ScannedDoc(tokens)
      requires forall term :: Counted(tfMap, tokens, term)
      modifies tree, store
      ensures TreeOk() && Indexed(tree.Model(), ds[doc := tokens])
    {
      hide Positions, Listed, Good, Ids, Flat, ToMap, Scanned;
      ghost var docs' := ds[doc := tokens];
      var rest := tfMap.Keys;
      forall term
        ensures Pending(tree.Model(), ds, docs', rest, term)
      {
        assert Listed(tree.Model(), ds, term) && Counted(tfMap, tokens, term);
        if term !in rest {
          AddElsewhere(tree.Model(), ds, term, doc, tokens);
        }
      }
      while rest != {}
        invariant TreeOk() && rest <= tfMap.Keys
        invariant forall term :: Pending(tree.Model(), ds, docs', rest, term)
        invariant forall k :: k in tree.Model() ==> k.Text? && Scanned(k.s)
        decreases |rest|
      {
        var term :| term in rest;
        ghost var m := tree.Model();
        var left := rest - {term};
        assert Pending(m, ds, docs', rest, term) && Counted(tfMap, tokens, term);
        AddPosting(term, doc, tfMap[term].1, ds, tokens);
        TermScanned(tokens, term);
        forall t
          ensures Pending(tree.Model(), ds, docs', left, t)
        {
          assert Pending(m, ds, docs', rest, t);
          PendingStep(m, tree.Model(), ds, docs', rest, term, t);
        }
        rest := left;
      }
      forall term
        ensures Listed(tree.Model(), docs', term)
      {
        assert Pending(tree.Model(), ds, docs', {}, term);
      }
    }

    /** Counting terms: the pairs of frequency and offsets. */
    method Count(tokens: seq<Token>) returns (tfMap: map<string, (nat, seq<U32>)>)
      ensures forall term :: Counted(tfMap, tokens, term)
    {
      tfMap := map[];
      for i := 0 to |tokens|
        invariant forall term :: Counted(tfMap, tokens[..i], term)
      {
        ghost var before, more := tfMap, tokens[..i + 1];
        var t := tokens[i].term;
        var e := if t in tfMap then tfMap[t] else (0, []);
        tfMap := tfMap[t := (e.0 + 1, e.1 + [tokens[i].offset])];
        forall term
          ensures Counted(tfMap, more, term)
        {
          assert Counted(before, tokens[..i], term);
          assert more[..i] == tokens[..i];
        }
      }
      forall term
        ensures Counted(tfMap, tokens, term)
      {
        assert tokens[..|tokens|] == tokens;
      }
    }

    method RemoveDocument(doc: U64)
      requires Valid()
      modifies this, tree, store
      ensures Valid() && docs == old(docs) - {doc} && |docs| <= old(|docs|)
    {
      hide Positions, Listed, Good, Ids, Flat, ToMap, Scanned, Indexed, Bounded, TreeOk;
      RemovedSize(docs, doc);
      LengthsDropped(docLen, docs, doc);
      if doc !in docLen {
        return;
      }
      docLen := docLen - {doc};
      nDocs := SatSub(nDocs, 1);
      DropEntries(doc);
      docs := docs - {doc};
    }

    /** Scan all terms and rewrite or delete those whose list names the document. */
    method DropEntries(doc: U64)
      requires TreeOk() && Indexed(tree.Model(), docs) && Bounded(docs)
      modifies tree, store
      ensures TreeOk() && Indexed(tree.Model(), docs - {doc})
    {
      hide Positions, Listed, Good, Ids, Flat, ToMap, Scanned, Updates, Between, Holds, Shrunk, Bounded, Progress,
        UpdateOf;
      var records := tree.RangeSearch(Text(""), Text(LAST_TERM));
      ghost var m0 := tree.Model();
      WholeScan();
      UpdatesFacts(records, doc, m0);
      var updates := Collect(records, doc);
      ApplyUpdates(updates, doc);
      forall term
        ensures Listed(tree.Model(), docs - {doc}, term)
      {
        assert Listed(m0, docs, term);
        Settle(m0, tree.Model(), records, updates, docs, doc, term);
      }
    }

    lemma {:induction false} WholeScan()
      requires TreeOk() && Indexed(tree.Model(), docs)
      ensures Between(tree.Contents(), Text(""), Text(LAST_TERM)) == tree.Contents()
      ensures Ascending(tree.Contents()) && Holds(tree.Model(), tree.Contents())
      ensures forall k :: k in tree.Model() ==> exists i :: 0 <= i < |tree.Contents()| && tree.Contents()[i].key == k
    {
      hide Good, Ids, Flat, Scanned, Between, Listed;
      FlatOrdered(store.pages, tree.tree, 64, tree.height, MIN_RANK, MAX_RANK, None);
      HoldsAll(tree.Contents());
      ScanCovers(tree.Contents());
    }

    method Collect(records: seq<Record>, doc: U64) returns (updates: seq<(string, PostingList)>)
      ensures updates == Updates(records, doc)
    {
      updates := [];
      for i := 0 to |records|
        invariant updates == Updates(records[..i], doc)
      {
        assert records[..i + 1][..i] == records[..i];
        var shrunk := Shrunk(records[i].value, doc);
        if records[i].key.Text? && shrunk.Some? {
          updates := updates + [(records[i].key.s, shrunk.value)];
        }
      }
      assert records[..|records|] == records;
    }

    method ApplyUpdates(updates: seq<(string, PostingList)>, doc: U64)
      requires TreeOk() && Indexed(tree.Model(), docs) && Bounded(docs)
      requires forall j :: 0 <= j < |updates| ==> UpdateOf(updates[j], tree.Model(), doc)
      requires forall i, j :: 0 <= i < j < |updates| ==> updates[i].0 != updates[j].0
      modifies tree, store
      ensures TreeOk()
      ensures forall term :: Progress(old(tree.Model()), tree.Model(), updates, |updates|, docs - {doc}, term)
      ensures forall k :: k in tree.Model() ==> k in old(tree.Model())
    {
      hide Positions, Listed, Good, Ids, Flat, ToMap, Scanned, Shrunk, ListBytes, TreeOk, TrueList, Absent, Bounded;
      ghost var m0, docs' := tree.Model(), docs - {doc};
      for n := 0 to |updates|
        invariant TreeOk() && docs == old(docs)
        invariant forall term :: Progress(m0, tree.Model(), updates, n, docs', term)
        invariant forall k :: k in tree.Model() ==> k in m0
      {
        var term, pl := updates[n].0, updates[n].1;
        ghost var m := tree.Model();
        assert UpdateOf(updates[n], m0, doc);
        assert Progress(m0, m, updates, n, docs', term);
        assert !exists j :: 0 <= j < n && updates[j].0 == term;
        ShrunkTrue(m0, docs, term, doc, pl);
        ApplyOne(term, pl, docs');
        ghost var next := n + 1;
        forall t
          ensures Progress(m0, tree.Model(), updates, next, docs', t)
        {
          assert Progress(m0, m, updates, n, docs', t);
          AdvanceOne(m0, m, tree.Model(), updates, n, docs', t);
        }
      }
    }

    method ApplyOne(term: string, pl: PostingList, ghost docs': Docs)
      requires TreeOk() && Text(term) in tree.Model()
      requires TrueList(pl, docs', term) && Bounded(docs') && (pl.postings == [] ==> Absent(docs', term))
      modifies tree, store
      ensures TreeOk() && Listed(tree.Model(), docs', term)
      ensures forall k :: k != Text(term) ==> (k in old(tree.Model()) <==> k in tree.Model())
      ensures forall k :: k != Text(term) && k in tree.Model() ==> old(tree.Model())[k] == tree.Model()[k]
    {
      hide Listed, Good, Ids, Flat, ToMap, ListBytes, TrueList, Bounded, Absent;
      OneUpdate(tree.Model(), docs', term, pl);
      SizeGuard();
      if |pl.postings| == 0 {
        var gone := tree.Delete(Text(term));
      } else {
        var bytes := EncodePostingList(pl);
        tree.Insert(Text(term), bytes);
      }
    }

    lemma {:induction false} SizeGuard()
      requires TreeOk()
      ensures forall k :: k in tree.Model() ==> tree.size > 0
    {
      hide Good, Ids, Flat;
      assert tree.Contents() == [] ==> tree.Model() == map[];
    }

    // ------------------------------------------------------------------
    // Searching.
    // ------------------------------------------------------------------

    /** The posting list of a term, lower-cased first. */
    method Fetch(term: string) returns (pl: Option<PostingList>)
      requires Valid()
      ensures pl.None? ==> Absent(docs, lower(term))
      ensures pl.Some? ==> TrueList(pl.value, docs, lower(term))
    {
      hide Positions, GetList, Good, Ids, Flat, ToMap, Scanned, Bounded;
      var b := tree.Search(Text(lower(term)));
      assert Listed(tree.Model(), docs, lower(term));
      if b.None? {
        return None;
      }
      pl := DecodePostingList(b.value);
    }

    method SearchTerm(term: string) returns (found: set<U64>)
      requires Valid()
      ensures found == DocsWith(docs, lower(term))
    {
      hide Valid, TrueList, DocIds;
      var pl := Fetch(term);
      if pl.None? {
        AbsentNone(docs, lower(term));
        return {};
      }
      TrueDocs(pl.value, docs, lower(term));
      return DocIds(pl.value.postings);
    }

    method SearchAnd(terms: seq<string>) returns (found: set<U64>)
      requires Valid()
      ensures terms == [] ==> found == {}
      ensures terms != [] ==>
          found == set d | d in docs && forall i :: 0 <= i < |terms| ==> Contains(docs[d], lower(terms[i]))
    {
      hide Valid, TrueList, DocIds, Contains, Absent;
      if terms == [] {
        return {};
      }
      var scores: Option<set<U64>> := None;
      for n := 0 to |terms|
        invariant n == 0 <==> scores.None?
        invariant n > 0 ==>
            scores.value == set d | d in docs && forall i :: 0 <= i < n ==> Contains(docs[d], lower(terms[i]))
      {
        var pl := Fetch(terms[n]);
        if pl.None? {
          AbsentNone(docs, lower(terms[n]));
          forall d | d in docs
            ensures !Contains(docs[d], lower(terms[n]))
          {
            assert d !in DocsWith(docs, lower(terms[n]));
          }
          return {};
        }
        TrueDocs(pl.value, docs, lower(terms[n]));
        var here := DocIds(pl.value.postings);
        scores := Some(if scores.None? then here else scores.value * here);
      }
      return scores.value;
    }

    method SearchOr(terms: seq<string>) returns (found: set<U64>)
      requires Valid()
      ensures found == set d | d in docs && exists i :: 0 <= i < |terms| && Contains(docs[d], lower(terms[i]))
    {
      hide Valid, TrueList, DocIds, Contains, Absent;
      found := {};
      for n := 0 to |terms|
        invariant found == set d | d in docs && exists i :: 0 <= i < n && Contains(docs[d], lower(terms[i]))
      {
        var pl := Fetch(terms[n]);
        if pl.Some? {
          TrueDocs(pl.value, docs, lower(terms[n]));
          found := found + DocIds(pl.value.postings);
        } else {
          AbsentNone(docs, lower(terms[n]));
        }
        assert DocsWith(docs, lower(terms[n])) == set d | d in docs && Contains(docs[d], lower(terms[n]));
        forall d | d in docs
          ensures (exists i :: 0 <= i < n + 1 && Contains(docs[d], lower(terms[i]))) <==>
            (exists i :: 0 <= i < n && Contains(docs[d], lower(terms[i]))) || d in DocsWith(docs, lower(terms[n]))
        {
        }
      }
    }

    /** Documents in which the terms occur at consecutive offsets. */
    method SearchPhrase(terms: seq<string>) returns (found: set<U64>)
      requires Valid()
      ensures terms == [] ==> found == {}
      ensures terms != [] ==> found == PhraseDocs(docs, Lowered(lower, terms))
    {
      hide Valid, TrueList, PhraseDocs;
      if terms == [] {
        return {};
      }
      var pl0 := Fetch(terms[0]);
      if pl0.None? {
        PhraseAbsent(docs, Lowered(lower, terms));
        return {};
      }
      var rest: seq<PostingList> := [];
      for n := 1 to |terms|
        invariant |rest| == n - 1
        invariant forall i :: 1 <= i < n ==> TrueList(rest[i - 1], docs, lower(terms[i]))
      {
        var pl := Fetch(terms[n]);
        if pl.None? {
          EmptyTrue(docs, lower(terms[n]));
        }
        rest := rest + [if pl.Some? then pl.value else PostingList(0, [])];
      }
      found := Consecutive([pl0.value] + rest, docs, Lowered(lower, terms));
    }
  }

  /** The documents of `lists[0]` in which one occurrence each of `lists` makes a run of offsets. */
  method Consecutive(lists: seq<PostingList>, ghost docs: Docs, ghost terms: seq<string>) returns (found: set<U64>)
    requires |lists| == |terms| > 0
    requires forall i :: 0 <= i < |terms| ==> TrueList(lists[i], docs, terms[i])
    ensures found == PhraseDocs(docs, terms)
  {
    hide TrueList, PhraseIn, Positions;
    found := {};
    var ps := lists[0].postings;
    for k := 0 to |ps|
      invariant found == set p | p in ps[..k] && p.docId in docs && PhraseIn(docs[p.docId], terms) :: p.docId
    {
      FirstIsTrue(lists[0], docs, terms[0], k);
      var ok := InDocument(lists, ps[k], docs, terms);
      assert ps[..k + 1] == ps[..k] + [ps[k]];
      if ok {
        found := found + {ps[k].docId};
      }
    }
    assert ps[..|ps|] == ps;
    PhraseNamed(lists[0], docs, terms);
  }

  /** Does the document of `p` hold the phrase? */
  method InDocument(lists: seq<PostingList>, p: Posting, ghost docs: Docs, ghost terms: seq<string>) returns (ok: bool)
    requires |lists| == |terms| > 0
    requires forall i :: 0 <= i < |terms| ==> TrueList(lists[i], docs, terms[i])
    requires TruePosting(p, docs, terms[0])
    ensures ok <==> PhraseIn(docs[p.docId], terms)
  {
    hide TrueList, Positions;
    ghost var ts := docs[p.docId];
    var row := [p];
    for n := 1 to |lists|
      invariant |row| == n
      invariant forall i :: 0 <= i < n ==> row[i].positions == Positions(ts, terms[i])
    {
      var q := Find(lists[n].postings, p.docId);
      FindTrue(lists[n], docs, terms[n], p.docId, q);
      if q.None? {
        PhraseNeeds(ts, terms, n);
        return false;
      }
      row := row + [q.value];
    }
    for k := 0 to |p.positions|
      invariant forall j :: 0 <= j < k ==> !PhraseAt(ts, terms, p.positions[j])
    {
      var all := RunAt(row, p.positions[k], ts, terms);
      if all {
        return true;
      }
    }
    PhraseStarts(ts, terms);
    return false;
  }

  /** Is every later term of the phrase at its place after `start`? */
  method RunAt(row: seq<Posting>, start: U32, ghost ts: seq<Token>, ghost terms: seq<string>) returns (all: bool)
    requires |row| == |terms| > 0 && start in row[0].positions
    requires forall i :: 0 <= i < |terms| ==> row[i].positions == Positions(ts, terms[i])
    ensures all <==> PhraseAt(ts, terms, start)
  {
    hide Positions, TokenAt;
    OffsetListed(ts, terms[0], start);
    assert start + 0 == start;
    for i := 1 to |row|
      invariant forall j :: 0 <= j < i ==> TokenAt(ts, terms[j], start + j)
    {
      OffsetListed(ts, terms[i], start + i);
      if !HasOffset(row[i].positions, start + i) {
        return false;
      }
    }
    return true;
  }

  /** The first posting of the document. */
  method Find(ps: seq<Posting>, doc: U64) returns (p: Option<Posting>)
    ensures p.None? ==> doc !in DocIds(ps)
    ensures p.Some? ==> p.value in ps && p.value.docId == doc
  {
    for i := 0 to |ps|
      invariant forall j :: 0 <= j < i ==> ps[j].docId != doc
    {
      if ps[i].docId == doc {
        return Some(ps[i]);
      }
    }
    return None;
  }

  // ------------------------------------------------------------------
  // What a search should find, said without posting lists.
  // ------------------------------------------------------------------

  ghost predicate Contains(ts: seq<Token>, term: string) {
    exists i :: 0 <= i < |ts| && ts[i].term == term
  }

  ghost function DocsWith(docs: Docs, term: string): set<U64> {
    set d | d in docs && Contains(docs[d], term)
  }

  /** A token of the term at the offset. */
  ghost predicate TokenAt(ts: seq<Token>, term: string, x: int) {
    exists i :: 0 <= i < |ts| && ts[i].term == term && ts[i].offset == x
  }

  ghost predicate PhraseAt(ts: seq<Token>, terms: seq<string>, start: nat) {
    forall i :: 0 <= i < |terms| ==> TokenAt(ts, terms[i], start + i)
  }

  ghost predicate PhraseIn(ts: seq<Token>, terms: seq<string>) {
    exists start: nat :: PhraseAt(ts, terms, start)
  }

  ghost function PhraseDocs(docs: Docs, terms: seq<string>): set<U64> {
    set d | d in docs && PhraseIn(docs[d], terms)
  }

  function Lowered(lower: string -> string, terms: seq<string>): seq<string> {
    seq(|terms|, i requires 0 <= i < |terms| => lower(terms[i]))
  }

  lemma {:induction false} AbsentNone(docs: Docs, term: string)
    requires Absent(docs, term)
    ensures DocsWith(docs, term) == {}
  {
    forall d | d in docs
      ensures !Contains(docs[d], term)
    {
      PositionsBound(docs[d], term);
    }
  }

  lemma {:induction false} TrueDocs(pl: PostingList, docs: Docs, term: string)
    requires TrueList(pl, docs, term)
    ensures DocIds(pl.postings) == DocsWith(docs, term)
  {
    hide Positions;
    forall d | d in docs
      ensures Contains(docs[d], term) <==> Positions(docs[d], term) != []
    {
      PositionsBound(docs[d], term);
    }
    forall p | p in pl.postings
      ensures p.docId in docs && Positions(docs[p.docId], term) != []
    {
      var i :| 0 <= i < |pl.postings| && pl.postings[i] == p;
      assert TruePosting(pl.postings[i], docs, term);
    }
  }

  predicate HasOffset(ps: seq<U32>, x: int) {
    exists j :: 0 <= j < |ps| && ps[j] == x
  }

  lemma {:induction false} OffsetListed(ts: seq<Token>, term: string, x: int)
    ensures TokenAt(ts, term, x) <==> HasOffset(Positions(ts, term), x)
  {
    hide Positions;
    if 0 <= x < 0x1_0000_0000 {
      PositionsAt(ts, term, x);
      if i :| 0 <= i < |ts| && ts[i].term == term && ts[i].offset == x {
        assert ts[i] == Token(term, x);
      }
    }
  }

  /** A phrase can only start where its first term is. */
  lemma {:induction false} PhraseStarts(ts: seq<Token>, terms: seq<string>)
    requires terms != []
    ensures forall start: nat :: PhraseAt(ts, terms, start) ==>
      HasOffset(Positions(ts, terms[0]), start)
  {
    hide Positions;
    forall start: nat | PhraseAt(ts, terms, start)
      ensures HasOffset(Positions(ts, terms[0]), start)
    {
      assert TokenAt(ts, terms[0], start + 0);
      OffsetListed(ts, terms[0], start);
    }
  }

  lemma {:induction false} PhraseNeeds(ts: seq<Token>, terms: seq<string>, n: nat)
    requires n < |terms| && Positions(ts, terms[n]) == []
    ensures !PhraseIn(ts, terms)
  {
    hide Positions;
    forall start: nat | PhraseAt(ts, terms, start)
      ensures false
    {
      assert TokenAt(ts, terms[n], start + n);
      OffsetListed(ts, terms[n], start + n);
    }
  }

  lemma {:induction false} PhraseAbsent(docs: Docs, terms: seq<string>)
    requires terms != [] && Absent(docs, terms[0])
    ensures PhraseDocs(docs, terms) == {}
  {
    hide Positions, PhraseIn;
    forall d | d in docs
      ensures !PhraseIn(docs[d], terms)
    {
      PhraseNeeds(docs[d], terms, 0);
    }
  }

  lemma {:induction false} FindTrue(pl: PostingList, docs: Docs, term: string, doc: U64, q: Option<Posting>)
    requires TrueList(pl, docs, term) && doc in docs
    requires q.None? ==> doc !in DocIds(pl.postings)
    requires q.Some? ==> q.value in pl.postings && q.value.docId == doc
    ensures q.None? ==> Positions(docs[doc], term) == []
    ensures q.Some? ==> q.value.positions == Positions(docs[doc], term)
  {
    hide Positions;
    if q.Some? {
      var i :| 0 <= i < |pl.postings| && pl.postings[i] == q.value;
      assert TruePosting(pl.postings[i], docs, term);
    }
  }

  lemma {:induction false} FirstIsTrue(pl: PostingList, docs: Docs, term: string, k: nat)
    requires TrueList(pl, docs, term) && k < |pl.postings|
    ensures TruePosting(pl.postings[k], docs, term)
  {
  }

  lemma {:induction false} PhraseNamed(pl: PostingList, docs: Docs, terms: seq<string>)
    requires terms != [] && TrueList(pl, docs, terms[0])
    ensures PhraseDocs(docs, terms) == set p | p in pl.postings && p.docId in docs && PhraseIn(docs[p.docId], terms) ::
        p.docId
  {
    hide Positions, PhraseIn;
    forall d | d in docs && PhraseIn(docs[d], terms)
      ensures d in DocIds(pl.postings)
    {
      if Positions(docs[d], terms[0]) == [] {
        PhraseNeeds(docs[d], terms, 0);
      }
    }
  }

  /** While a document is being added: the terms in `rest` are still to come. */
  ghost predicate Pending(m: map<Key, Bytes>, ds: Docs, docs': Docs, rest: set<string>, term: string) {
    if term in rest then Listed(m, ds, term) else Listed(m, docs', term)
  }

  lemma {:induction false} PendingStep(m: map<Key, Bytes>, m': map<Key, Bytes>, ds: Docs, docs': Docs,
                                       rest: set<string>, term: string, t: string)
    requires Pending(m, ds, docs', rest, t) && Listed(m', docs', term)
    requires forall k :: k != Text(term) ==> (k in m <==> k in m') && (k in m ==> m[k] == m'[k])
    ensures Pending(m', ds, docs', rest - {term}, t)
  {
    hide Listed;
    if t != term {
      assert Text(t) != Text(term);
      assert SameEntry(m, m', t);
      ListedSame(m, m', if t in rest then ds else docs', t);
    }
  }

  /** The count of one term: present exactly if it occurs, with its frequency and offsets. */
  ghost predicate Counted(tfMap: map<string, (nat, seq<U32>)>, ts: seq<Token>, term: string) {
    && (term in tfMap <==> Positions(ts, term) != [])
    && (term in tfMap ==> tfMap[term].0 == |Positions(ts, term)| && tfMap[term].1 == Positions(ts, term))
  }

  lemma {:induction false} AddedSize(ds: Docs, doc: U64, tokens: seq<Token>)
    requires Bounded(ds) && doc !in ds && |tokens| < 0x1_0000_0000 && |ds| + 1 < 0x1_0000_0000
    ensures Bounded(ds[doc := tokens]) && |ds[doc := tokens]| == |ds| + 1
    ensures ds[doc := tokens].Keys == ds.Keys + {doc}
  {
    assert ds[doc := tokens].Keys == ds.Keys + {doc};
  }

  lemma {:induction false} RemovedSize(ds: Docs, doc: U64)
    requires Bounded(ds)
    ensures Bounded(ds - {doc}) && (ds - {doc}).Keys == ds.Keys - {doc}
    ensures |ds - {doc}| == |ds| - (if doc in ds then 1 else 0)
  {
    BoundedLess(ds, doc);
    var rest := ds - {doc};
    assert doc in ds ==> ds.Keys == rest.Keys + {doc};
    assert doc !in ds ==> rest == ds;
  }

  lemma {:induction false} TermScanned(ts: seq<Token>, term: string)
    requires ScannedDoc(ts) && Positions(ts, term) != []
    ensures Scanned(term)
  {
    PositionsBound(ts, term);
  }

  lemma {:induction false} ListedSame(m: map<Key, Bytes>, m': map<Key, Bytes>, docs: Docs, term: string)
    requires SameEntry(m, m', term) && Listed(m, docs, term)
    ensures Listed(m', docs, term)
  {
  }

  lemma {:induction false} ShrunkTrue(m: map<Key, Bytes>, docs: Docs, term: string, doc: U64, pl: PostingList)
    requires Listed(m, docs, term) && Bounded(docs) && UpdateOf((term, pl), m, doc)
    ensures TrueList(pl, docs - {doc}, term) && (pl.postings == [] ==> Absent(docs - {doc}, term))
    ensures Bounded(docs - {doc})
  {
    hide Positions, GetList, Without;
    var full := GetList(m[Text(term)]).value;
    RemoveTrue(full, docs, term, doc);
    TrueIsSized(full, docs, term);
    WithoutSize(full.postings, doc);
    BoundedLess(docs, doc);
  }

  lemma {:induction false} WithoutSize(ps: seq<Posting>, doc: U64)
    ensures |Without(ps, doc)| <= |ps|
  {
  }

  lemma {:induction false} BoundedLess(docs: Docs, doc: U64)
    requires Bounded(docs)
    ensures Bounded(docs - {doc})
  {
    var d := docs - {doc};
    assert d.Keys <= docs.Keys;
    SmallerSet(d.Keys, docs.Keys);
  }

  lemma {:induction false} SmallerSet<T>(a: set<T>, b: set<T>)
    requires a <= b
    ensures |a| <= |b|
  {
    assert b == a + (b - a);
  }

  /** Either way of applying one update leaves its entry right. */
  lemma {:induction false} OneUpdate(m: map<Key, Bytes>, docs': Docs, term: string, pl: PostingList)
    requires TrueList(pl, docs', term) && Bounded(docs') && (pl.postings == [] ==> Absent(docs', term))
    ensures pl.postings == [] ==> Listed(m - {Text(term)}, docs', term)
    ensures pl.postings != [] ==> Listed(m[Text(term) := ListBytes(pl)], docs', term)
  {
    if pl.postings != [] {
      WriteEntry(m, pl, docs', term);
    }
  }

  lemma {:induction false} AdvanceOne(m0: map<Key, Bytes>, m: map<Key, Bytes>, m': map<Key, Bytes>,
                                      us: seq<(string, PostingList)>, n: nat, docs': Docs, t: string)
    requires n < |us| && Progress(m0, m, us, n, docs', t)
    requires forall k :: k != Text(us[n].0) ==> (k in m <==> k in m') && (k in m ==> m[k] == m'[k])
    requires Listed(m', docs', us[n].0)
    ensures Progress(m0, m', us, n + 1, docs', t)
  {
    hide Listed;
    if t == us[n].0 {
    } else {
      assert Text(t) != Text(us[n].0);
      assert SameEntry(m, m', t);
      if exists j :: 0 <= j < n && us[j].0 == t {
        ListedSame(m, m', docs', t);
      }
      if j :| 0 <= j < n + 1 && us[j].0 == t {
        assert j < n;
      }
    }
  }

  /** Once all updates are in, every entry is right for the documents that remain. */
  lemma {:induction false} Settle(m0: map<Key, Bytes>, m: map<Key, Bytes>, records: seq<Record>,
      us: seq<(string, PostingList)>,
                                  docs: Docs, doc: U64, term: string)
    requires Progress(m0, m, us, |us|, docs - {doc}, term) && Listed(m0, docs, term)
    requires us == Updates(records, doc) && Holds(m0, records)
    requires forall k :: k in m0 ==> exists i :: 0 <= i < |records| && records[i].key == k
    requires forall i :: 0 <= i < |records| && records[i].key.Text? && Shrunk(records[i].value, doc).Some? ==>
      (records[i].key.s, Shrunk(records[i].value, doc).value) in us
    ensures Listed(m, docs - {doc}, term)
  {
    hide Updates, Positions, GetList, Without;
    if exists j :: 0 <= j < |us| && us[j].0 == term {
    } else {
      if Text(term) in m0 {
        var i :| 0 <= i < |records| && records[i].key == Text(term);
        var pl := GetList(m0[Text(term)]).value;
        WithoutFacts(pl.postings, doc);
        if doc in DocIds(pl.postings) {
          assert false;
        }
      }
      RemoveElsewhere(m0, docs, term, doc);
      ListedSame(m0, m, docs - {doc}, term);
    }
  }
}
