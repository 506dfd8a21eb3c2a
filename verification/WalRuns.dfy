/** Whole runs of the disk store, crashes at any point, and reopening (src/pager/wal.rs,
    src/pager/file_btree_storage.rs). */
module WalRuns {
  import opened Keys
  import opened WalLog
  import opened Wals

  type Writes = seq<(nat, Page)>

  datatype Event =
    | Put(page: nat, data: Page)                    // a write outside a transaction
    | Batch(writes: Writes)                         // several at once, outside a transaction
    | Transaction(writes: Writes, commits: bool)
    | Alloc                                         // outside a transaction
    | SetRoot(root: nat)                            // of the catalog: writes the header
    | FlushAll

  /** How a run ends: at most `frames` frames of the log are left, or the machine stops inside a flush
      that had written `pages` pages to the file. */
  datatype Crash = Cut(frames: nat) | InFlush(pages: nat)

  /** What the run has committed so far, in order, how much of it the last flush took into the file,
      which pages the committed cache knows, whether the log has frames, and the page count in memory
      and in the header. */
  datatype Shadow =
    Shadow(all: seq<Writes>, flushed: nat, known: set<nat>, logged: bool, count: nat, header: nat)

  /** The pages after applying these write sets one after the other. */
  function AfterAll(sets: seq<Writes>): Image {
    if sets == [] then map[]
    else AfterAll(sets[..|sets| - 1]) + Written(map[], sets[|sets| - 1])
  }

  /** The plain map: page `p` after the write sets, over the file at the start. */
  function Plain(file0: Image, sets: seq<Writes>, p: nat): Page {
    Settled(AfterAll(sets), file0, p)
  }

  ghost function Committing(s: Shadow, ws: Writes): Shadow {
    s.(all := s.all + [ws], known := s.known + Written(map[], ws).Keys, logged := true)
  }

  ghost function After(s: Shadow, e: Event): Shadow {
    match e
    case Put(p, data) => Committing(s, [(p, data)])
    case Batch(ws) => Committing(s, ws)
    case Transaction(ws, true) => Committing(s, ws)
    case Transaction(ws, false) => s.(known := s.known + Twice(ws))
    case Alloc => Committing(s, [(s.count, Blank())]).(count := s.count + 1)
    case SetRoot(_) => s.(header := s.count)
    case FlushAll =>
      (if s.logged then s.(flushed := |s.all|, known := {}, logged := false) else s).(header := s.count)
  }

  ghost function AfterEvents(s: Shadow, es: seq<Event>): Shadow
    decreases es
  {
    if es == [] then s else AfterEvents(After(s, es[0]), es[1..])
  }

  /** The pages written more than once. */
  ghost function Twice(ws: Writes): set<nat> {
    set w | w in ws && |WritesTo(ws, w.0)| >= 2 :: w.0
  }

  /** A rolled-back transaction writes each page at most once, or one that the committed cache knows,
      or first writes what the page held. */
  ghost predicate Restorable(file0: Image, s: Shadow, ws: Writes) {
    forall p :: |WritesTo(ws, p)| <= 1 || p in s.known || WritesTo(ws, p)[0] == Plain(file0, s.all, p)
  }

  /** Allocation blanks the page in the file at once, so there must be nothing. */
  ghost predicate Allowed(file0: Image, s: Shadow, e: Event) {
    && (e.Transaction? && !e.commits ==> Restorable(file0, s, e.writes))
    && (e.Alloc? ==> Plain(file0, s.all[..if s.flushed <= |s.all| then s.flushed else 0], s.count) == Blank())
  }

  ghost predicate Proper(file0: Image, s: Shadow, es: seq<Event>)
    decreases es
  {
    es != [] ==> Allowed(file0, s, es[0]) && Proper(file0, After(s, es[0]), es[1..])
  }

  // ------------------------------------------------------------------
  // What stands on disk and in memory between two events.
  // ------------------------------------------------------------------

  /** The log's transactions have the effect of these write sets, one by one. */
  ghost predicate Matches(bs: seq<Block>, sets: seq<Writes>) {
    && |bs| == |sets|
    && forall i :: 0 <= i < |bs| ==> bs[i].done && Written(map[], bs[i].writes) == Written(map[], sets[i])
  }

  /** The committed cache is what the log wrote, and beyond that only what the file holds anyway. */
  ghost predicate Agreeing(committed: Image, effects: Image, file: Image) {
    && (forall p :: p in effects ==> p in committed && committed[p] == effects[p])
    && (forall p :: p in committed && p !in effects ==> committed[p] == InFile(file, p))
  }

  /** Nothing is asked of transaction ids here: they matter to replay only. */
  ghost predicate Stands(file0: Image, s: Shadow, bs: seq<Block>, committed: Image, file: Image) {
    && s.flushed <= |s.all| && Matches(Done(bs), s.all[s.flushed..])
    && (s.logged <==> bs != []) && (forall b :: b in bs ==> b.done || b.writes != [])
    && committed.Keys == s.known && Agreeing(committed, Effects(bs), file)
    && forall p :: InFile(file, p) == Plain(file0, s.all[..s.flushed], p)
  }

  lemma {:induction false} WrittenOver(m: Image, ws: Writes)
    ensures Written(m, ws) == m + Written(map[], ws)
  {
    if ws != [] {
      WrittenOver(m, ws[..|ws| - 1]);
    }
  }

  lemma {:induction false} AfterConcat(a: seq<Writes>, b: seq<Writes>)
    ensures AfterAll(a + b) == AfterAll(a) + AfterAll(b)
  {
    hide Written;
    if b == [] {
      assert a + b == a;
    } else {
      var n := |b| - 1;
      assert (a + b)[..|a + b| - 1] == a + b[..n] && (a + b)[|a + b| - 1] == b[n];
      AfterConcat(a, b[..n]);
      MapsAssociate(AfterAll(a), AfterAll(b[..n]), Written(map[], b[n]));
    }
  }

  lemma {:induction false} MapsAssociate(a: Image, b: Image, c: Image)
    ensures (a + b) + c == a + (b + c)
  {
  }

  lemma {:induction false} MatchedEffects(bs: seq<Block>, sets: seq<Writes>, j: nat)
    requires Matches(bs, sets) && j <= |bs|
    ensures Effects(bs[..j]) == AfterAll(sets[..j])
  {
    hide Written;
    if j > 0 {
      MatchedEffects(bs, sets, j - 1);
      assert bs[..j][..j - 1] == bs[..j - 1] && sets[..j][..j - 1] == sets[..j - 1];
      WrittenOver(Effects(bs[..j - 1]), bs[j - 1].writes);
    }
  }

  /** Committed so far and file so far: what is read is the plain map. */
  lemma {:induction false} Reads(file0: Image, s: Shadow, bs: seq<Block>, committed: Image, file: Image)
    requires Stands(file0, s, bs, committed, file)
    ensures Effects(bs) == AfterAll(s.all[s.flushed..])
    ensures forall p :: Settled(committed, file, p) == Plain(file0, s.all, p)
  {
    hide Effects, Written, AfterAll, Done;
    var tail, done := s.all[s.flushed..], Done(bs);
    CountBlocks(bs);
    MatchedEffects(done, tail, |done|);
    assert done[..|done|] == done && tail[..|tail|] == tail && s.all == s.all[..s.flushed] + tail;
    AfterConcat(s.all[..s.flushed], tail);
  }

  /** What is left of the log after any frame: some transactions and a part of the next. */
  lemma {:induction false} Surviving(bs: seq<Block>, k: nat) returns (left: seq<Block>)
    requires k <= |Flatten(bs)| && forall b :: b in bs ==> b.done || b.writes != []
    ensures Flatten(left) == Flatten(bs)[..k]
    ensures |Done(left)| == CommitCount(Flatten(bs)[..k]) <= |Done(bs)| && Done(left) == Done(bs)[..|Done(left)|]
    ensures (forall b :: b in left ==> b.done || b.writes != []) && (FreshIds(bs) ==> FreshIds(left))
  {
    hide Flatten, CommitCount;
    if k == |Flatten(bs)| {
      left := bs;
      assert Flatten(bs)[..k] == Flatten(bs);
      assert Done(bs)[..|Done(bs)|] == Done(bs);
    } else {
      var j, i := PrefixShape(bs, k);
      var part := Block(bs[j].txn, bs[j].writes[..i], false);
      var cut := bs[..j] + [part];
      assert cut[..|cut| - 1] == bs[..j];
      assert Done(cut) == Done(bs[..j]) + [] == Done(bs[..j]);
      DonePrefix(bs[..j], bs[j..]);
      assert bs == bs[..j] + bs[j..];
      assert Done(bs)[..|Done(cut)|] == Done(cut);
      left := if i == 0 then bs[..j] else cut;
      EmptyPart(bs[..j], part);
    }
    CountBlocks(left);
  }

  lemma {:induction false} EmptyPart(bs: seq<Block>, part: Block)
    ensures !part.done && part.writes == [] ==> Flatten(bs + [part]) == Flatten(bs)
  {
    assert (bs + [part])[..|bs|] == bs;
  }

  /** Any prefix of the log in which no unfinished transaction bears the id of a finished one, over
      the file. */
  lemma {:induction false} CutReads(file0: Image, s: Shadow, bs: seq<Block>, committed: Image, file: Image,
      left: seq<Block>)
    requires Stands(file0, s, bs, committed, file) && Clean(left)
    requires |Done(left)| <= |Done(bs)| && Done(left) == Done(bs)[..|Done(left)|]
    ensures s.flushed + |Done(left)| <= |s.all|
    ensures forall p ::
      Settled(Recovered(Flatten(left)), file, p) == Plain(file0, s.all[..s.flushed + |Done(left)|], p)
  {
    hide Effects, Written, AfterAll, Flatten, Recovered, Done;
    var tail, j := s.all[s.flushed..], |Done(left)|;
    CleanRecovery(left);
    CountBlocks(left);
    MatchedEffects(Done(bs), tail, j);
    assert s.all[..s.flushed + j] == s.all[..s.flushed] + tail[..j];
    AfterConcat(s.all[..s.flushed], tail[..j]);
  }

  /** The whole log, over a file to which a flush had written some of the committed pages. */
  lemma {:induction false} HalfFlushedReads(file0: Image, s: Shadow, bs: seq<Block>, committed: Image, file: Image,
      back: set<nat>)
    requires Stands(file0, s, bs, committed, file) && Clean(bs)
    ensures forall p :: Settled(Recovered(Flatten(bs)), file + Restricted(committed, back), p) == Plain(file0, s.all, p)
  {
    hide Effects, Written, AfterAll, Flatten, Recovered;
    CleanRecovery(bs);
    Reads(file0, s, bs, committed, file);
  }

  // ------------------------------------------------------------------
  // One event.
  // ------------------------------------------------------------------

  lemma {:induction false} Commits(file0: Image, s: Shadow, bs: seq<Block>, committed: Image, file: Image, b: Block,
      ws: Writes)
    requires Stands(file0, s, bs, committed, file)
    requires b.done && Written(map[], b.writes) == Written(map[], ws)
    ensures Stands(file0, Committing(s, ws), bs + [b], committed + Written(map[], ws), file)
  {
    hide Written, AfterAll, Effects, Plain, Done;
    var s' := Committing(s, ws);
    assert s'.all[s.flushed..] == s.all[s.flushed..] + [ws] && s'.all[..s.flushed] == s.all[..s.flushed];
    EffectsSnoc(bs, b);
    WrittenOver(Effects(bs), b.writes);
    assert Effects(bs + [b]) == Effects(bs) + Written(map[], ws);
    OneMoreDone(bs, b);
  }

  lemma {:induction false} OneMoreDone(bs: seq<Block>, b: Block)
    requires b.done
    ensures Done(bs + [b]) == Done(bs) + [b]
  {
    assert (bs + [b])[..|bs|] == bs;
  }

  lemma {:induction false} RollsBack(file0: Image, s: Shadow, bs: seq<Block>, committed: Image, file: Image,
      committed': Image, ws: Writes)
    requires Stands(file0, s, bs, committed, file) && Restorable(file0, s, ws)
    requires forall p :: p in committed' <==> p in committed || |WritesTo(ws, p)| >= 2
    requires forall p ::
        p in committed' ==> committed'[p] == if p in committed then committed[p] else WritesTo(ws, p)[0]
    ensures Stands(file0, s.(known := s.known + Twice(ws)), bs, committed', file)
  {
    hide AfterAll, Effects, WritesTo, Done;
    Reads(file0, s, bs, committed, file);
    forall p
      ensures p in Twice(ws) <==> |WritesTo(ws, p)| >= 2
    {
      WrittenPages(ws, p);
    }
  }

  lemma {:induction false} WrittenPages(ws: Writes, p: nat)
    ensures |WritesTo(ws, p)| > 0 ==> exists w :: w in ws && w.0 == p
  {
    if ws != [] {
      WrittenPages(ws[..|ws| - 1], p);
      if |WritesTo(ws, p)| > 0 {
        if ws[|ws| - 1].0 == p {
          assert ws[|ws| - 1] in ws;
        } else {
          var w :| w in ws[..|ws| - 1] && w.0 == p;
          assert w in ws;
        }
      }
    }
  }

  lemma {:induction false} Flushes(file0: Image, s: Shadow, bs: seq<Block>, committed: Image, file: Image)
    requires Stands(file0, s, bs, committed, file) && bs != []
    ensures Stands(file0, s.(flushed := |s.all|, known := {}, logged := false), [], map[], file + committed)
  {
    hide AfterAll, Written;
    Reads(file0, s, bs, committed, file);
    assert s.all[|s.all|..] == [] && s.all[..|s.all|] == s.all;
  }

  lemma {:induction false} LogEmpty(bs: seq<Block>)
    requires forall b :: b in bs ==> b.done || b.writes != []
    ensures Flatten(bs) == [] <==> bs == []
  {
    if bs != [] {
      var b := bs[|bs| - 1];
      DatasPrefix(b.txn, b.writes, 0);
      assert b in bs;
    }
  }

  /** The page counts play no part. */
  lemma {:induction false} CountsApart(file0: Image, s: Shadow, s': Shadow, bs: seq<Block>, committed: Image,
      file: Image)
    requires Stands(file0, s, bs, committed, file) && s' == s.(count := s'.count, header := s'.header)
    ensures Stands(file0, s', bs, committed, file)
  {
    hide Effects, Plain, Done;
  }

  /** The store is at rest in the state that the shadow describes. */
  ghost predicate AtRest(d: DiskStorage, file0: Image, s: Shadow)
    reads d, d.wal
  {
    && d.Valid() && !d.wal.inTxn && d.pageCount == s.count && d.headerCount == s.header
    && Stands(file0, s, d.wal.blocks, d.wal.committed, d.file)
  }

  /** No transaction in the log bears the id of another, or one that is still to be given. */
  ghost predicate Fresh(d: DiskStorage)
    reads d, d.wal
  {
    FreshIds(d.wal.blocks) && forall b :: b in d.wal.blocks ==> b.txn < d.wal.nextTxnId
  }

  lemma {:induction false} RestContent(d: DiskStorage, file0: Image, s: Shadow)
    requires AtRest(d, file0, s)
    ensures forall p :: d.Content(p) == Plain(file0, s.all, p)
  {
    Reads(file0, s, d.wal.blocks, d.wal.committed, d.file);
  }

  method Do(d: DiskStorage, e: Event, ghost file0: Image, ghost s: Shadow)
    requires AtRest(d, file0, s) && Allowed(file0, s, e)
    modifies d, d.wal
    ensures AtRest(d, file0, After(s, e)) && (old(Fresh(d)) ==> Fresh(d))
    ensures e.FlushAll? ==> Fresh(d)
    ensures old(d.file.Keys) <= d.file.Keys
    ensures d.file.Keys <= old(d.file.Keys + d.wal.committed.Keys) + (if e.Alloc? then {old(d.pageCount)} else {})
    ensures e.Alloc? ==> old(d.pageCount) in d.file
  {
    hide Stands, Written, Effects, Flatten, WritesTo;
    ghost var bs, committed, file := d.wal.blocks, d.wal.committed, d.file;
    ghost var next := d.wal.nextTxnId;
    match e {
      case Put(p, data) =>
        d.WriteNode(p, data);
        Single(p, data);
        Commits(file0, s, bs, committed, file, Block(next, [(p, data)], true), [(p, data)]);
        assert committed[p := data] == committed + map[p := data];
      case Batch(ws) =>
        d.wal.WriteBatch(ws);
        WrittenOver(committed, ws);
        Commits(file0, s, bs, committed, file, Block(next, ws, true), ws);
      case Transaction(ws, commits) =>
        if commits {
          CommitAll(d, ws, file0, s);
        } else {
          d.Transact(ws);
          RollsBack(file0, s, bs, committed, file, d.wal.committed, ws);
        }
      case Alloc => AllocBlank(d, file0, s);
      case SetRoot(root) =>
        d.SetCatalogRoot(root);
        CountsApart(file0, s, s.(header := s.count), bs, committed, file);
      case FlushAll => FlushDown(d, file0, s);
    }
  }

  lemma {:induction false} Single(p: nat, data: Page)
    ensures Written(map[], [(p, data)]) == map[p := data]
  {
    assert [(p, data)][..0] == [];
  }

  method CommitAll(d: DiskStorage, ws: Writes, ghost file0: Image, ghost s: Shadow)
    requires AtRest(d, file0, s)
    modifies d.wal
    ensures AtRest(d, file0, After(s, Transaction(ws, true))) && (old(Fresh(d)) ==> Fresh(d))
  {
    hide Stands, Written, Effects, Flatten, WritesTo, Tracked, Lists;
    ghost var bs, committed := d.wal.blocks, d.wal.committed;
    d.BeginTxn();
    d.WriteAll(ws);
    d.wal.Commit();
    ghost var b := d.wal.blocks[|bs|];
    WrittenInAnyOrder(map[], b.writes, Written(map[], ws));
    assert map[] + Written(map[], ws) == Written(map[], ws);
    assert d.wal.blocks == bs + [b];
    Commits(file0, s, bs, committed, d.file, b, ws);
  }

  method AllocBlank(d: DiskStorage, ghost file0: Image, ghost s: Shadow)
    requires AtRest(d, file0, s) && Allowed(file0, s, Alloc)
    modifies d, d.wal
    ensures AtRest(d, file0, After(s, Alloc)) && (old(Fresh(d)) ==> Fresh(d))
    ensures d.file == old(d.file)[old(d.pageCount) := Blank()]
  {
    hide Stands, Written, Effects, Flatten, Blank, Plain;
    ghost var bs, committed, file, next := d.wal.blocks, d.wal.committed, d.file, d.wal.nextTxnId;
    var id := d.AllocPage();
    Single(id, Blank());
    Commits(file0, s, bs, committed, file, Block(next, [(id, Blank())], true), [(id, Blank())]);
    assert committed[id := Blank()] == committed + map[id := Blank()];
    Counts(file0, s, bs, committed, file);
    assert Committing(s, [(id, Blank())]).all[..|s.all|] == s.all;
    BlankAlready(file0, s, Committing(s, [(id, Blank())]), d.wal.blocks, d.wal.committed, file, id);
  }

  /** Blanking a page that reads blank in the file anyway. */
  lemma {:induction false} BlankAlready(file0: Image, s: Shadow, s': Shadow, bs: seq<Block>, committed: Image,
      file: Image, p: nat)
    requires Stands(file0, s', bs, committed, file) && Allowed(file0, s, Alloc) && p == s.count
    requires s.flushed == s'.flushed <= |s.all| && |s.all| <= |s'.all| && s'.all[..|s.all|] == s.all
    ensures Stands(file0, s'.(count := p + 1), bs, committed, file[p := Blank()])
  {
    hide Effects, Written, AfterAll, Done, Blank, Plain;
    assert s'.all[..s.flushed] == s.all[..s.flushed];
    assert forall q :: InFile(file[p := Blank()], q) == InFile(file, q);
  }

  method FlushDown(d: DiskStorage, ghost file0: Image, ghost s: Shadow)
    requires AtRest(d, file0, s)
    modifies d, d.wal
    ensures AtRest(d, file0, After(s, FlushAll)) && Fresh(d)
    ensures old(d.file.Keys) <= d.file.Keys <= old(d.file.Keys + d.wal.committed.Keys)
  {
    hide Written, Effects, Flatten, Plain, Agreeing;
    ghost var bs, committed, file := d.wal.blocks, d.wal.committed, d.file;
    LogEmpty(bs);
    d.Flush();
    if bs != [] {
      Flushes(file0, s, bs, committed, file);
    }
    assert bs == [] ==> Stands(file0, s.(header := s.count), bs, committed, file);
  }

  // ------------------------------------------------------------------
  // The theorem.
  // ------------------------------------------------------------------

  /** For every run of auto-commit writes, batches, transactions, allocations and flushes that is
      proper: every page reads as the plain map says.  A crash leaves any prefix of the log, or stops
      inside a flush at any point.  If in the log that is left no unfinished transaction bears the id of
      a finished one (with fresh ids it cannot), the reopened store reads, for every page, the plain map
      of the transactions flushed or whose commit frame survived, and is itself at rest, so that the
      next session can begin. */
  method RunAndCrash(d: DiskStorage, events: seq<Event>, crash: Crash, ghost file0: Image, ghost s: Shadow)
    returns (reopened: DiskStorage, ghost left: seq<Block>, ghost kept: nat)
    requires AtRest(d, file0, s) && Proper(file0, s, events)
    modifies d, d.wal
    ensures var s' := AfterEvents(s, events);
      && AtRest(d, file0, s') && (forall p :: d.Content(p) == Plain(file0, s'.all, p))
      && s'.flushed <= kept <= |s'.all|
      && (crash.InFlush? || crash.frames >= |d.wal.log| ==> kept == |s'.all|)
      && (crash.Cut? && crash.frames <= |d.wal.log| ==> kept == s'.flushed + CommitCount(d.wal.log[..crash.frames]))
      && (Clean(left) ==> forall p :: reopened.Content(p) == Plain(file0, s'.all[..kept], p))
    ensures old(Fresh(d)) ==> Fresh(d) && Clean(left)
    ensures fresh(reopened) && fresh(reopened.wal) && reopened.wal.blocks == left
    ensures Clean(left) ==> AtRest(reopened, reopened.file, Opened(left, d.headerCount))
  {
    hide Stands, After, Allowed, Plain, Flatten, Recovered, CommitCount, FreshIds, Clean, Effects, Opened;
    ghost var now := s;
    assert events[0..] == events;
    for i := 0 to |events|
      invariant AtRest(d, file0, now) && Proper(file0, now, events[i..]) && (old(Fresh(d)) ==> Fresh(d))
      invariant AfterEvents(s, events) == AfterEvents(now, events[i..])
    {
      assert events[i..][0] == events[i] && events[i..][1..] == events[i + 1..];
      Do(d, events[i], file0, now);
      now := After(now, events[i]);
    }
    RestContent(d, file0, now);
    ghost var bs, committed := d.wal.blocks, d.wal.committed;
    Counts(file0, now, bs, committed, d.file);
    if crash.Cut? && crash.frames < |d.wal.log| {
      left := Surviving(bs, crash.frames);
      kept := now.flushed + |Done(left)|;
      if Clean(left) { CutReads(file0, now, bs, committed, d.file, left); }
      reopened := Restart(d.file, d.headerCount, d.headerRoot, d.wal.log[..crash.frames], left);
    } else {
      var half := d.file;
      ghost var back := {};
      if crash.InFlush? {
        half, back := d.wal.WriteBack(d.file, crash.pages);
      }
      left, kept := bs, |now.all|;
      assert now.all[..kept] == now.all;
      Untouched(d.file, committed);
      if Clean(left) { HalfFlushedReads(file0, now, bs, committed, d.file, back); }
      assert d.wal.log[..|d.wal.log|] == d.wal.log;
      reopened := Restart(half, d.headerCount, d.headerRoot, d.wal.log, left);
    }
    if FreshIds(left) { FreshIsClean(left); }
  }

  lemma {:induction false} Untouched(file: Image, committed: Image)
    ensures file + Restricted(committed, {}) == file
  {
  }

  lemma {:induction false} Counts(file0: Image, s: Shadow, bs: seq<Block>, committed: Image, file: Image)
    requires Stands(file0, s, bs, committed, file)
    ensures s.flushed + |Done(bs)| == |s.all| && CommitCount(Flatten(bs)) == |Done(bs)|
    ensures forall b :: b in bs ==> b.done || b.writes != []
  {
    CountBlocks(bs);
  }

  // ------------------------------------------------------------------
  // Opening.
  // ------------------------------------------------------------------

  function Sets(bs: seq<Block>): (sets: seq<Writes>)
    ensures |sets| == |bs|
  {
    seq(|bs|, i requires 0 <= i < |bs| => bs[i].writes)
  }

  /** A store opened over a log: what the log committed counts as not yet flushed. */
  ghost function Opened(left: seq<Block>, header: nat): Shadow {
    Shadow(Sets(Done(left)), 0, Effects(left).Keys, left != [], header, header)
  }

  /** Opening over any file and any log without mixed-up ids gives a store at rest. */
  method Restart(file: Image, headerCount: nat, headerRoot: nat, log: seq<Frame>, ghost left: seq<Block>)
    returns (d: DiskStorage)
    requires log == Flatten(left) && forall b :: b in left ==> b.done || b.writes != []
    ensures fresh(d) && fresh(d.wal) && d.file == file && d.wal.blocks == left
    ensures forall p :: d.Content(p) == Settled(Recovered(log), file, p)
    ensures d.catalogRoot == if headerRoot > 0 then Some(headerRoot) else None
    ensures Clean(left) ==> AtRest(d, file, Opened(left, headerCount))
    ensures left == [] ==> Fresh(d)
  {
    hide Flatten, Recovered, Effects, Clean, Done;
    d := new DiskStorage.Open(file, headerCount, headerRoot, log, left);
    if Clean(left) {
      CleanRecovery(left);
      OpensAtRest(file, left, headerCount);
    }
  }

  lemma {:induction false} OpensAtRest(file: Image, left: seq<Block>, header: nat)
    requires forall b :: b in left ==> b.done || b.writes != []
    ensures Stands(file, Opened(left, header), left, Effects(left), file)
  {
    hide Effects;
    var s := Opened(left, header);
    AllFinished(left);
    assert s.all[0..] == s.all && s.all[..0] == [];
  }

  lemma {:induction false} AllFinished(bs: seq<Block>)
    ensures forall b :: b in Done(bs) ==> b.done
  {
    if bs != [] {
      AllFinished(bs[..|bs| - 1]);
    }
  }

  /** The catalog's root page survives being written and reopened if and only if it is not page 0,
      the page that the first allocation hands out. */
  method RootSurvives(d: DiskStorage, root: nat) returns (again: DiskStorage)
    requires d.Valid()
    modifies d
    ensures again.catalogRoot == Some(root) <==> root > 0
  {
    d.SetCatalogRoot(root);
    again := new DiskStorage.Open(d.file, d.headerCount, d.headerRoot, d.wal.log, d.wal.blocks);
  }

  // ------------------------------------------------------------------
  // Many sessions.
  // ------------------------------------------------------------------

  /** Events whose rolled-back transactions write no page twice, and no allocations: these are allowed
      in every state. */
  ghost predicate Simple(e: Event) {
    !e.Alloc? && (e.Transaction? && !e.commits ==> forall p :: |WritesTo(e.writes, p)| <= 1)
  }

  /** What these events commit. */
  function Committed(es: seq<Event>): seq<Writes> {
    if es == [] then []
    else
      Committed(es[..|es| - 1]) +
      match es[|es| - 1] {
        case Put(p, data) => [[(p, data)]]
        case Batch(ws) => [ws]
        case Transaction(ws, commits) => if commits then [ws] else []
        case Alloc => []
        case SetRoot(_) => []
        case FlushAll => []
      }
  }

  /** How many of them precede the last flush. */
  function Sunk(es: seq<Event>): nat {
    if es == [] then 0
    else if es[|es| - 1].FlushAll? then |Committed(es[..|es| - 1])|
    else Sunk(es[..|es| - 1])
  }

  lemma {:induction false} AlwaysProper(file0: Image, s: Shadow, es: seq<Event>)
    requires forall e :: e in es ==> Simple(e)
    ensures Proper(file0, s, es)
    decreases es
  {
    hide WritesTo, Plain, After;
    if es != [] {
      assert es[0] in es;
      AlwaysProper(file0, After(s, es[0]), es[1..]);
    }
  }

  lemma {:induction false} LastEvent(s: Shadow, es: seq<Event>)
    requires es != []
    ensures AfterEvents(s, es) == After(AfterEvents(s, es[..|es| - 1]), es[|es| - 1])
    decreases es
  {
    hide After;
    if |es| == 1 {
      assert es[1..] == [] && es[..0] == [];
    } else {
      LastEvent(After(s, es[0]), es[1..]);
      assert es[1..][..|es| - 2] == es[..|es| - 1][1..];
    }
  }

  lemma {:induction false} CommittedAfter(s: Shadow, es: seq<Event>)
    requires s.flushed <= |s.all| && (!s.logged ==> s.flushed == |s.all|) && forall e :: e in es ==> Simple(e)
    ensures var s' := AfterEvents(s, es);
      && s'.all == s.all + Committed(es) && s'.flushed <= |s'.all| && (!s'.logged ==> s'.flushed == |s'.all|)
      && (s.flushed == |s.all| ==> |s.all| + Sunk(es) <= s'.flushed)
  {
    hide Written, WritesTo, After, Committed, Sunk, AfterEvents;
    if es == [] {
      NoneCommitted(s);
    } else {
      var n := |es| - 1;
      CommittedAfter(s, es[..n]);
      LastEvent(s, es);
      assert es[n] in es;
      CommittedBy(AfterEvents(s, es[..n]), es);
    }
  }

  lemma {:induction false} NoneCommitted(s: Shadow)
    ensures AfterEvents(s, []) == s && Committed([]) == [] && Sunk([]) == 0
  {
  }

  /** One simple event, as the last of `es`. */
  lemma {:induction false} CommittedBy(s: Shadow, es: seq<Event>)
    requires es != [] && !es[|es| - 1].Alloc?
    requires s.flushed <= |s.all| && (!s.logged ==> s.flushed == |s.all|)
    ensures var n, s' := |es| - 1, After(s, es[|es| - 1]);
      && Committed(es) == Committed(es[..n]) + Committed(es)[|Committed(es[..n])|..]
      && s'.all == s.all + Committed(es)[|Committed(es[..n])|..]
      && s.flushed <= s'.flushed <= |s'.all| && (!s'.logged ==> s'.flushed == |s'.all|)
      && Sunk(es) == (if es[n].FlushAll? then |Committed(es[..n])| else Sunk(es[..n]))
      && (es[n].FlushAll? ==> s'.flushed == |s.all|)
  {
    hide Written, WritesTo, Twice;
  }

  /** The plain map only asks what the earlier write sets left. */
  lemma {:induction false} PlainChain(file: Image, sets: seq<Writes>, more: seq<Writes>, file0: Image, all: seq<Writes>)
    requires forall p :: Plain(file0, all, p) == Plain(file, sets, p)
    ensures forall p :: Plain(file0, all + more, p) == Plain(file, sets + more, p)
  {
    hide AfterAll;
    AfterConcat(all, more);
    AfterConcat(sets, more);
    forall p
      ensures Plain(file0, all + more, p) == Plain(file, sets + more, p)
    {
      assert Plain(file0, all, p) == Plain(file, sets, p);
    }
  }

  /** What is left of each session's commits, one session after the other. */
  function Left(runs: seq<(seq<Event>, Crash)>, kept: seq<nat>): seq<Writes>
    requires |kept| == |runs| && forall i :: 0 <= i < |runs| ==> kept[i] <= |Committed(runs[i].0)|
  {
    if runs == [] then []
    else
      var n := |runs| - 1;
      Left(runs[..n], kept[..n]) + Committed(runs[n].0)[..kept[n]]
  }

  /** One session: a flush, which makes transaction ids fresh again, events, a crash, a reopening. */
  method Session(d: DiskStorage, es: seq<Event>, crash: Crash, ghost s: Shadow)
    returns (reopened: DiskStorage, ghost s': Shadow, ghost kept: nat)
    requires AtRest(d, d.file, s) && forall e :: e in es ==> Simple(e)
    modifies d, d.wal
    ensures fresh(reopened) && fresh(reopened.wal) && AtRest(reopened, reopened.file, s')
    ensures Sunk(es) <= kept <= |Committed(es)| && (crash.InFlush? ==> kept == |Committed(es)|)
    ensures forall p :: reopened.Content(p) == Plain(old(d.file), s.all + Committed(es)[..kept], p)
  {
    hide Stands, AfterEvents, Plain, Flatten, Recovered, CommitCount, Effects, Simple, Sunk, Committed, Clean, FreshIds,
      Opened, Done, Restorable;
    ghost var file0, left, n := d.file, [], 0;
    Counts(file0, s, d.wal.blocks, d.wal.committed, d.file);
    NoneDone(file0, s, d.wal.blocks, d.wal.committed, d.file);
    Do(d, FlushAll, file0, s);
    ghost var s1 := After(s, FlushAll);
    AlwaysProper(file0, s1, es);
    CommittedAfter(s1, es);
    reopened, left, n := RunAndCrash(d, es, crash, file0, s1);
    kept, s' := n - |s.all|, Opened(left, d.headerCount);
    assert (s.all + Committed(es))[..n] == s.all + Committed(es)[..kept];
  }

  lemma {:induction false} NoneDone(file0: Image, s: Shadow, bs: seq<Block>, committed: Image, file: Image)
    requires Stands(file0, s, bs, committed, file)
    ensures !s.logged ==> s.flushed == |s.all|
  {
  }

  lemma {:induction false} OpenedEmpty(header: nat)
    ensures Opened([], header).all == []
  {
  }

  lemma {:induction false} OneMoreLeft(runs: seq<(seq<Event>, Crash)>, i: nat, kept: seq<nat>, n: nat)
    requires i < |runs| && |kept| == i && n <= |Committed(runs[i].0)|
    requires forall j :: 0 <= j < i ==> kept[j] <= |Committed(runs[j].0)|
    ensures Left(runs[..i + 1], kept + [n]) == Left(runs[..i], kept) + Committed(runs[i].0)[..n]
  {
    hide Committed;
    assert runs[..i + 1][..i] == runs[..i] && (kept + [n])[..i] == kept;
  }

  lemma {:induction false} NoBlocks()
    ensures Flatten([]) == [] && Done([]) == [] && Effects([]) == map[] && Recovered([]) == map[] && Clean([])
    ensures Left([], []) == [] && AfterAll([]) == map[]
  {
  }

  /** Any number of sessions that each begin with a flush, run any simple events and end in a crash:
      every page reads as the plain map of what each session kept.  A session keeps the first so many
      of its commits, at least those that it flushed, and all of them unless the log was cut. */
  method Sessions(file: Image, headerCount: nat, runs: seq<(seq<Event>, Crash)>)
    returns (d: DiskStorage, ghost kept: seq<nat>)
    requires forall i, e :: 0 <= i < |runs| && e in runs[i].0 ==> Simple(e)
    ensures |kept| == |runs|
    ensures forall i :: 0 <= i < |runs| ==> Sunk(runs[i].0) <= kept[i] <= |Committed(runs[i].0)|
    ensures forall i :: 0 <= i < |runs| && runs[i].1.InFlush? ==> kept[i] == |Committed(runs[i].0)|
    ensures fresh(d) && forall p :: d.Content(p) == Plain(file, Left(runs, kept), p)
  {
    hide Stands, AfterEvents, Plain, Flatten, Recovered, CommitCount, Effects, Simple, Sunk, Committed, Clean, FreshIds,
      Left, Opened, Done, AtRest, DiskStorage.Content;
    NoBlocks();
    d := Restart(file, headerCount, 0, [], []);
    ghost var s := Opened([], headerCount);
    kept := [];
    assert runs[..0] == [];
    RestContent(d, file, s);
    OpenedEmpty(headerCount);
    for i := 0 to |runs|
      invariant fresh(d) && fresh(d.wal) && AtRest(d, d.file, s) && |kept| == i
      invariant forall j :: 0 <= j < i ==> Sunk(runs[j].0) <= kept[j] <= |Committed(runs[j].0)|
      invariant forall j :: 0 <= j < i && runs[j].1.InFlush? ==> kept[j] == |Committed(runs[j].0)|
      invariant forall p :: d.Content(p) == Plain(file, Left(runs[..i], kept), p)
    {
      ghost var before, all, file0 := Left(runs[..i], kept), s.all, d.file;
      RestContent(d, file0, s);
      ghost var n;
      d, s, n := Session(d, runs[i].0, runs[i].1, s);
      PlainChain(file, before, Committed(runs[i].0)[..n], file0, all);
      OneMoreLeft(runs, i, kept, n);
      kept := kept + [n];
    }
    assert runs[..|runs|] == runs;
  }
  // ------------------------------------------------------------------
  // When a rollback leaks.
  // ------------------------------------------------------------------

  /** A transaction rolled back, a write of another page, and a flush: the file then holds, for page
      `p`, what was read before the transaction if and only if the page was in the committed cache,
      or was written at most once, or its first write changed nothing.  Otherwise the rolled-back
      write is durable: the log is empty and nothing remembers the old content. */
  method RollbackLeaks(d: DiskStorage, ws: Writes, q: nat, data: Page)
    requires d.Valid() && !d.wal.inTxn
    modifies d, d.wal
    ensures d.wal.log == [] && d.wal.committed == map[]
    ensures forall p :: p != q ==> (
      InFile(d.file, p) == old(d.Content(p)) <==>
        p in old(d.wal.committed) || |WritesTo(ws, p)| <= 1 || WritesTo(ws, p)[0] == old(InFile(d.file, p)))
  {
    hide WritesTo;
    d.Transact(ws);
    ghost var read := imap p: nat | true :: d.Content(p);
    d.WriteNode(q, data);
    assert |d.wal.log| > 0 by { LastBlock(d.wal.blocks); }
    d.Flush();
    assert forall p: nat :: p != q ==> InFile(d.file, p) == read[p];
  }

  lemma {:induction false} LastBlock(bs: seq<Block>)
    requires bs != [] && bs[|bs| - 1].done
    ensures Flatten(bs) != []
  {
  }

  // ------------------------------------------------------------------
  // Allocation after a crash.
  // ------------------------------------------------------------------

  /** All pages in use have been handed out, and those since the header was last written are in the
      file, where allocation put them at once. */
  ghost predicate Numbered(d: DiskStorage)
    reads d, d.wal
  {
    && d.headerCount <= d.pageCount && (forall p :: p in d.file || p in d.wal.committed ==> p < d.pageCount)
    && forall p :: d.headerCount <= p < d.pageCount ==> p in d.file
  }

  /** The event writes pages below `n` only. */
  ghost predicate InRange(e: Event, n: nat) {
    match e
    case Put(p, _) => p < n
    case Batch(ws) => forall w :: w in ws ==> w.0 < n
    case Transaction(ws, _) => forall w :: w in ws ==> w.0 < n
    case _ => true
  }

  /** With numbered pages allocation is always allowed. */
  lemma {:induction false} NumberedAllows(d: DiskStorage, file0: Image, s: Shadow)
    requires AtRest(d, file0, s) && Numbered(d)
    ensures Allowed(file0, s, Alloc)
  {
    hide Plain, Effects, Done, Matches, Agreeing;
  }

  /** Events on pages in use keep the pages numbered. */
  method DoNumbered(d: DiskStorage, e: Event, ghost file0: Image, ghost s: Shadow)
    requires AtRest(d, file0, s) && (e.Alloc? || Allowed(file0, s, e)) && Numbered(d) && InRange(e, d.pageCount)
    modifies d, d.wal
    ensures AtRest(d, file0, After(s, e)) && Numbered(d)
  {
    hide Written, Twice, Effects, Flatten, Plain, Done, Matches, Agreeing, Allowed, Blank;
    if e.Batch? || e.Transaction? {
      RangeWritten(e.writes, d.pageCount);
    } else if e.Put? {
      Single(e.page, e.data);
    } else if e.Alloc? {
      NumberedAllows(d, file0, s);
      Single(s.count, Blank());
    }
    Do(d, e, file0, s);
  }

  lemma {:induction false} RangeWritten(ws: Writes, n: nat)
    requires forall w :: w in ws ==> w.0 < n
    ensures forall p :: p in Written(map[], ws) ==> p < n
    ensures forall p :: p in Twice(ws) ==> p < n
  {
    if ws != [] {
      RangeWritten(ws[..|ws| - 1], n);
      assert ws[|ws| - 1] in ws;
    }
  }

  /** A crash that loses no frame, then a reopening and an allocation.  Only a flush and a new catalog
      root write the page count to the header, so the new page is one in use if and only if pages were
      allocated since. */
  method AllocAfterCrash(d: DiskStorage, ghost file0: Image, ghost s: Shadow) returns (id: nat, ghost live: set<nat>)
    requires AtRest(d, file0, s) && Numbered(d) && Clean(d.wal.blocks)
    ensures forall p :: p in live <==> p in d.file || p in Recovered(d.wal.log)
    ensures id == d.headerCount && (id in live <==> d.headerCount < d.pageCount)
  {
    hide Effects, Flatten, Recovered, Plain, Done, Matches;
    CleanRecovery(d.wal.blocks);
    live := d.file.Keys + Recovered(d.wal.log).Keys;
    var r := new DiskStorage.Open(d.file, d.headerCount, d.headerRoot, d.wal.log, d.wal.blocks);
    id := r.AllocPage();
  }

  // ------------------------------------------------------------------
  // The plain map, by writes.
  // ------------------------------------------------------------------

  /** Write number `k` is the last one to page `p`. */
  ghost predicate LastTo(ws: Writes, p: nat, k: int) {
    0 <= k < |ws| && ws[k].0 == p && forall j :: k < j < |ws| ==> ws[j].0 != p
  }

  lemma {:induction false} WrittenLast(m: Image, ws: Writes, p: nat, k: nat)
    requires LastTo(ws, p, k)
    ensures p in Written(m, ws) && Written(m, ws)[p] == ws[k].1
  {
    var n := |ws| - 1;
    if ws[n].0 != p {
      assert ws[..n][k] == ws[k];
      WrittenLast(m, ws[..n], p, k);
    }
  }

  lemma {:induction false} WrittenNot(m: Image, ws: Writes, p: nat)
    requires forall k :: 0 <= k < |ws| ==> ws[k].0 != p
    ensures (p in Written(m, ws) <==> p in m) && (p in m ==> Written(m, ws)[p] == m[p])
  {
    if ws != [] {
      WrittenNot(m, ws[..|ws| - 1], p);
    }
  }

  /** Without writes a page is what the file holds, or 4096 zero bytes; after a transaction it is what its
      last write to the page says, or as before. */
  lemma {:induction false} PlainIs(file0: Image, sets: seq<Writes>, ws: Writes, p: nat)
    ensures p in file0 ==> Plain(file0, [], p) == file0[p]
    ensures p !in file0 ==> |Plain(file0, [], p)| == 4096 && forall i :: 0 <= i < 4096 ==> Plain(file0, [], p)[i] == 0
    ensures forall k :: LastTo(ws, p, k) ==> Plain(file0, sets + [ws], p) == ws[k].1
    ensures (forall k :: 0 <= k < |ws| ==> ws[k].0 != p) ==> Plain(file0, sets + [ws], p) == Plain(file0, sets, p)
  {
    hide Written;
    forall k: nat | LastTo(ws, p, k)
      ensures p in Written(map[], ws) && Written(map[], ws)[p] == ws[k].1
    {
      WrittenLast(map[], ws, p, k);
    }
    if forall k :: 0 <= k < |ws| ==> ws[k].0 != p {
      WrittenNot(map[], ws, p);
    }
    assert (sets + [ws])[..|sets|] == sets;
    assert AfterAll(sets + [ws]) == AfterAll(sets) + Written(map[], ws);
  }

  /** The writes to a page, in order: the first of them, and whether there are two. */
  lemma {:induction false} WritesToIs(ws: Writes, p: nat)
    ensures |WritesTo(ws, p)| >= 1 <==> exists k :: 0 <= k < |ws| && ws[k].0 == p
    ensures |WritesTo(ws, p)| >= 2 <==> exists j, k :: 0 <= j < k < |ws| && ws[j].0 == p && ws[k].0 == p
    ensures forall k :: 0 <= k < |ws| && ws[k].0 == p && (forall j :: 0 <= j < k ==> ws[j].0 != p) ==>
      |WritesTo(ws, p)| >= 1 && WritesTo(ws, p)[0] == ws[k].1
  {
    if ws != [] {
      var n := |ws| - 1;
      WritesToIs(ws[..n], p);
      TwoWrites(ws, p);
    }
  }

  lemma {:induction false} TwoWrites(ws: Writes, p: nat)
    requires ws != []
    ensures var n := |ws| - 1;
      (exists j, k :: 0 <= j < k < |ws| && ws[j].0 == p && ws[k].0 == p) <==>
        || (exists j, k :: 0 <= j < k < n && ws[..n][j].0 == p && ws[..n][k].0 == p)
        || (ws[n].0 == p && exists j :: 0 <= j < n && ws[..n][j].0 == p)
  {
    var n := |ws| - 1;
    if j, k :| 0 <= j < k < |ws| && ws[j].0 == p && ws[k].0 == p {
      assert ws[..n][j].0 == p;
      assert k < n ==> ws[..n][k].0 == p;
    }
    if j, k :| 0 <= j < k < n && ws[..n][j].0 == p && ws[..n][k].0 == p {
      assert ws[j].0 == p && ws[k].0 == p;
    }
    if j :| 0 <= j < n && ws[..n][j].0 == p && ws[n].0 == p {
      assert ws[j].0 == p && ws[n].0 == p;
    }
  }
}
