/** The write-ahead log manager (src/pager/wal.rs) and the disk store above it
    (src/pager/file_btree_storage.rs).  Files are a page map and a frame sequence. */
module Wals {
  import opened Keys
  import opened WalLog

  const PAGE_SIZE: nat := 4096

  function Blank(): Page { seq(PAGE_SIZE, i => 0) }

  function InFile(file: Image, p: nat): Page {
    if p in file then file[p] else Blank()
  }

  /** What a reader sees with these committed pages over this file. */
  function Settled(committed: Image, file: Image, p: nat): Page {
    if p in committed then committed[p] else InFile(file, p)
  }

  lemma {:induction false} EffectsSnoc(bs: seq<Block>, b: Block)
    requires b.done
    ensures Effects(bs + [b]) == Written(Effects(bs), b.writes)
    ensures Flatten(bs + [b]) == Flatten(bs) + Datas(b.txn, b.writes) + [Commit(b.txn)]
  {
    assert (bs + [b])[..|bs + [b]| - 1] == bs;
  }

  lemma {:induction false} DatasSnoc(txn: nat, ws: seq<(nat, Page)>, w: (nat, Page))
    ensures Datas(txn, ws + [w]) == Datas(txn, ws) + [Data(w.0, txn, w.1)]
    ensures forall m :: Written(m, ws + [w]) == Written(m, ws)[w.0 := w.1]
  {
    assert (ws + [w])[..|ws + [w]| - 1] == ws;
  }

  class Wal {
    var log: seq<Frame>
    var committed: Image
    var dirty: Image
    var preImage: Image
    var nextTxnId: nat
    var inTxn: bool
    ghost var blocks: seq<Block>

    /** The log is the frames of these transactions, oldest first; outside a transaction
        nothing is dirty. */
    ghost predicate Valid()
      reads this
    {
      log == Flatten(blocks) && (!inTxn ==> dirty == map[])
    }

    /** The committed cache is what the committed transactions of the log wrote. */
    ghost predicate Agrees()
      reads this
    {
      committed == Effects(blocks)
    }

    /** Opening a log file of which `survived` is left replays it; numbering starts at 1. */
    constructor Open(survived: seq<Frame>, ghost bs: seq<Block>)
      requires survived == Flatten(bs)
      ensures Valid() && log == survived && blocks == bs
      ensures committed == Recovered(survived)
      ensures dirty == map[] && preImage == map[] && nextTxnId == 1 && !inTxn
    {
      log, blocks := survived, bs;
      committed, dirty, preImage := map[], map[], map[];
      nextTxnId, inTxn := 1, false;
      new;
      Replay();
    }

    method Replay()
      requires committed == map[]
      modifies this`committed
      ensures committed == Recovered(log)
    {
      var ids: set<nat> := {};
      assert CommitIds(log[..0]) == {};
      for i := 0 to |log|
        invariant ids == CommitIds(log[..i]) && committed == map[]
      {
        WalLog.IdsConcat(log[..i], [log[i]]);
        assert log[..i + 1] == log[..i] + [log[i]];
        assert CommitIds([log[i]]) == if log[i].Commit? then {log[i].txn} else {} by { assert log[i] in [log[i]]; }
        if log[i].Commit? { ids := ids + {log[i].txn}; }
      }
      assert log[..|log|] == log && log[..0] == [];
      for i := 0 to |log|
        invariant committed == Redo(log[..i], ids, map[])
      {
        assert log[..i + 1][..i] == log[..i];
        if log[i].Data? && log[i].txn in ids {
          committed := committed[log[i].page := log[i].data];
        }
      }
    }

    method Begin()
      requires Valid()
      modifies this
      ensures Valid()
      ensures dirty == map[] && preImage == map[] && inTxn
      ensures log == old(log) && committed == old(committed) && nextTxnId == old(nextTxnId) && blocks == old(blocks)
    {
      dirty, preImage, inTxn := map[], map[], true;
    }

    /** The dirty pages go to the log in whatever order the map yields them. */
    method Commit()
      requires Valid()
      modifies this
      ensures Valid() && !inTxn
      ensures old(inTxn) ==>
        && |blocks| == |old(blocks)| + 1 && blocks[..|old(blocks)|] == old(blocks)
        && (var b := blocks[|old(blocks)|]; b.done && b.txn == old(nextTxnId) && Lists(b.writes, old(dirty)))
        && committed == old(committed) + old(dirty) && dirty == map[] && nextTxnId == old(nextTxnId) + 1
        && Effects(blocks) == Effects(old(blocks)) + old(dirty)
      ensures !old(inTxn) ==>
        && blocks == old(blocks) && committed == old(committed) && dirty == old(dirty) && nextTxnId == old(nextTxnId)
      ensures preImage == old(preImage)
      ensures old(Agrees()) ==> Agrees()
    {
      hide Effects, Flatten, Written, Datas, Lists;
      if !inTxn { return; }
      var txn := nextTxnId;
      nextTxnId := nextTxnId + 1;
      ghost var ws := LogDirty(txn);
      WriteFrame(Frame.Commit(txn));
      ghost var b := Block(txn, ws, true);
      EffectsSnoc(blocks, b);
      WrittenInAnyOrder(Effects(blocks), ws, dirty);
      blocks := blocks + [b];
      committed := committed + dirty;
      dirty, inTxn := map[], false;
    }

    method LogDirty(txn: nat) returns (ghost ws: seq<(nat, Page)>)
      modifies this`log
      ensures log == old(log) + Datas(txn, ws) && Lists(ws, dirty)
    {
      var rest := dirty.Keys;
      ws := [];
      while rest != {}
        invariant rest <= dirty.Keys && log == old(log) + Datas(txn, ws)
        invariant forall i :: 0 <= i < |ws| ==> ws[i].0 in dirty && dirty[ws[i].0] == ws[i].1
        invariant forall p :: p in dirty && p !in rest ==> (p, dirty[p]) in ws
        decreases |rest|
      {
        var p :| p in rest;
        DatasSnoc(txn, ws, (p, dirty[p]));
        WriteFrame(Frame.Data(p, txn, dirty[p]));
        ws := ws + [(p, dirty[p])];
        rest := rest - {p};
      }
    }

    method WriteFrame(f: Frame)
      modifies this`log
      ensures log == old(log) + [f]
    {
      log := log + [f];
    }

    method Rollback()
      requires Valid()
      modifies this
      ensures Valid()
      ensures committed == old(committed) + old(preImage) && preImage == map[] && dirty == map[] && !inTxn
      ensures log == old(log) && nextTxnId == old(nextTxnId) && blocks == old(blocks)
    {
      committed := committed + preImage;
      preImage, dirty, inTxn := map[], map[], false;
    }

    method SaveOriginal(p: nat, original: Page)
      modifies this`preImage
      ensures preImage == if inTxn && p !in old(preImage) then old(preImage)[p := original] else old(preImage)
    {
      if inTxn && p !in preImage {
        preImage := preImage[p := original];
      }
    }

    function GetCommittedCopy(p: nat): (r: Option<Page>)
      reads this
    {
      if p in dirty then Some(dirty[p]) else if p in committed then Some(committed[p]) else None
    }

    function ReadPage(p: nat): (r: Option<Page>)
      reads this
    {
      if p in dirty then Some(dirty[p]) else if p in committed then Some(committed[p]) else None
    }

    method WritePage(p: nat, data: Page)
      requires Valid()
      modifies this
      ensures Valid() && inTxn == old(inTxn) && preImage == old(preImage)
      ensures inTxn ==>
        && dirty == old(dirty)[p := data] && committed == old(committed)
        && blocks == old(blocks) && nextTxnId == old(nextTxnId)
      ensures !inTxn ==>
        && dirty == old(dirty) && committed == old(committed)[p := data] && nextTxnId == old(nextTxnId) + 1
        && blocks == old(blocks) + [Block(old(nextTxnId), [(p, data)], true)]
      ensures old(Agrees()) ==> Agrees()
    {
      if inTxn {
        dirty := dirty[p := data];
      } else {
        WriteBatch([(p, data)]);
        assert [(p, data)][..0] == [];
        assert committed == old(committed)[p := data];
      }
    }

    method WriteBatch(ws: seq<(nat, Page)>)
      requires Valid()
      modifies this
      ensures Valid() && inTxn == old(inTxn) && preImage == old(preImage)
      ensures inTxn ==>
        && dirty == Written(old(dirty), ws) && committed == old(committed)
        && blocks == old(blocks) && nextTxnId == old(nextTxnId)
      ensures !inTxn ==>
        && dirty == old(dirty) && committed == Written(old(committed), ws) && nextTxnId == old(nextTxnId) + 1
        && blocks == old(blocks) + [Block(old(nextTxnId), ws, true)]
      ensures old(Agrees()) ==> Agrees()
    {
      if inTxn {
        for i := 0 to |ws|
          invariant dirty == Written(old(dirty), ws[..i])
          invariant inTxn && committed == old(committed) && blocks == old(blocks) && log == old(log)
          invariant preImage == old(preImage) && nextTxnId == old(nextTxnId)
        {
          assert ws[..i + 1][..i] == ws[..i];
          dirty := dirty[ws[i].0 := ws[i].1];
        }
        assert ws[..|ws|] == ws;
      } else {
        var txn := nextTxnId;
        nextTxnId := nextTxnId + 1;
        LogBatch(txn, ws);
        WriteFrame(Frame.Commit(txn));
        EffectsSnoc(blocks, Block(txn, ws, true));
        blocks := blocks + [Block(txn, ws, true)];
      }
    }

    /** The frames of a batch, each page going into the committed cache at once. */
    method LogBatch(txn: nat, ws: seq<(nat, Page)>)
      modifies this`committed, this`log
      ensures committed == Written(old(committed), ws) && log == old(log) + Datas(txn, ws)
    {
      for i := 0 to |ws|
        invariant committed == Written(old(committed), ws[..i]) && log == old(log) + Datas(txn, ws[..i])
      {
        assert ws[..i + 1][..i] == ws[..i];
        committed := committed[ws[i].0 := ws[i].1];
        WriteFrame(Frame.Data(ws[i].0, txn, ws[i].1));
      }
      assert ws[..|ws|] == ws;
    }

    /** Write the committed pages back, in any order, then truncate the log. */
    method Checkpoint(file: Image) returns (file': Image)
      requires Valid()
      modifies this
      ensures Valid() && log == [] && blocks == [] && committed == map[]
      ensures file' == file + old(committed)
      ensures dirty == old(dirty) && preImage == old(preImage) && inTxn == old(inTxn) && nextTxnId == old(nextTxnId)
    {
      ghost var back;
      file', back := WriteBack(file, |committed|);
      log, committed := [], map[];
      blocks := [];
    }

    /** The loop over the committed pages, in any order, stopped after `n` of them: the state in which
        a crash inside the loop leaves the file. */
    method WriteBack(file: Image, n: nat) returns (file': Image, ghost back: set<nat>)
      ensures back <= committed.Keys && file' == file + Restricted(committed, back)
      ensures n >= |committed| ==> back == committed.Keys && file' == file + committed
    {
      hide Restricted;
      AllBack(file, committed);
      file', back := file, {};
      var rest, done := committed.Keys, 0;
      while rest != {} && done < n
        invariant rest <= committed.Keys && back == committed.Keys - rest && |rest| + done == |committed.Keys|
        invariant file' == file + Restricted(committed, back)
        decreases |rest|
      {
        var p :| p in rest;
        OneBack(file, committed, back, p);
        file' := file'[p := committed[p]];
        rest, done := rest - {p}, done + 1;
        back := back + {p};
      }
    }
  }

  /** The committed pages that a flush had written when it stopped. */
  function Restricted(committed: Image, back: set<nat>): Image {
    map p | p in committed && p in back :: committed[p]
  }

  lemma {:induction false} OneBack(file: Image, committed: Image, back: set<nat>, p: nat)
    requires p in committed
    ensures (file + Restricted(committed, back))[p := committed[p]] == file + Restricted(committed, back + {p})
  {
  }

  lemma {:induction false} AllBack(file: Image, committed: Image)
    ensures file + Restricted(committed, {}) == file
    ensures Restricted(committed, committed.Keys) == committed && |committed| == |committed.Keys|
  {
  }

  /** A crash anywhere inside a checkpoint: some committed pages already written back and the
      log still there, or all of them and the log gone.  Replay then reads what was committed. */
  lemma {:induction false} CheckpointCrash(bs: seq<Block>, file: Image, back: set<nat>, p: nat)
    requires Clean(bs)
    ensures var committed := Effects(bs);
      && Settled(Recovered(Flatten(bs)), file + Restricted(committed, back), p) == Settled(committed, file, p)
      && Settled(Recovered([]), file + committed, p) == Settled(committed, file, p)
  {
    CleanRecovery(bs);
  }

  /** Reading the frames of a log file one by one. */
  method ReadFrames(stored: seq<Stored>) returns (frames: seq<Frame>)
    ensures frames == Readable(stored)
  {
    frames := [];
    for i := 0 to |stored|
      invariant Readable(stored) == frames + Readable(stored[i..])
    {
      assert stored[i..][1..] == stored[i + 1..];
      if stored[i].Torn? {
        return;
      }
      if stored[i].Whole? {
        frames := frames + [stored[i].frame];
      }
    }
  }

  /** Opening a log file in whatever state: a replay of its readable frames. */
  method OpenLog(stored: seq<Stored>) returns (wal: Wal)
    ensures fresh(wal) && wal.Valid() && wal.log == Readable(stored) && wal.committed == Recovered(Readable(stored))
  {
    var frames := ReadFrames(stored);
    ghost var bs := AnyLog(frames);
    wal := new Wal.Open(frames, bs);
  }

  // ------------------------------------------------------------------
  // The disk store.
  // ------------------------------------------------------------------

  /** The writes to page `p` among `ws`. */
  function WritesTo(ws: seq<(nat, Page)>, p: nat): seq<Page> {
    if ws == [] then []
    else WritesTo(ws[..|ws| - 1], p) + (if ws[|ws| - 1].0 == p then [ws[|ws| - 1].1] else [])
  }

  /** What the transaction's bookkeeping holds of page `p` after the writes `ws`. */
  ghost predicate Tracked(committed: Image, dirty: Image, preImage: Image, ws: seq<(nat, Page)>, p: nat) {
    var mine := WritesTo(ws, p);
    && (p in dirty <==> |mine| >= 1)
    && (p in dirty && |mine| == 1 ==> dirty[p] == mine[0])
    && (p in preImage <==> |mine| >= 2 || (|mine| == 1 && p in committed))
    && (p in preImage ==> preImage[p] == if p in committed then committed[p] else mine[0])
  }

  lemma {:induction false} TrackStep(committed: Image, dirty: Image, preImage: Image, ws: seq<(nat, Page)>, i: nat,
      p: nat)
    requires i < |ws| && Tracked(committed, dirty, preImage, ws[..i], p)
    ensures var q, d := ws[i].0, ws[i].1;
      var original := if q in dirty then Some(dirty[q]) else if q in committed then Some(committed[q]) else None;
      var preImage' := if q in preImage || original.None? then preImage else preImage[q := original.value];
      Tracked(committed, dirty[q := d], preImage', ws[..i + 1], p)
  {
    assert ws[..i + 1][..i] == ws[..i];
  }

  lemma {:induction false} WrittenSnoc(ws: seq<(nat, Page)>, i: nat)
    requires i < |ws|
    ensures Written(map[], ws[..i + 1]) == Written(map[], ws[..i])[ws[i].0 := ws[i].1]
  {
    assert ws[..i + 1][..i] == ws[..i];
  }

  class DiskStorage {
    var file: Image
    var pageCount: nat
    var headerCount: nat
    /** The root page of the catalog; the header holds 0 for none. */
    var catalogRoot: Option<nat>
    var headerRoot: nat
    const wal: Wal

    ghost predicate Valid()
      reads this, wal
    {
      wal.Valid()
    }

    /** What a read of page `p` returns: dirty, then committed, then the file. */
    function Content(p: nat): Page
      reads this, wal
    {
      if p in wal.dirty then wal.dirty[p] else Settled(wal.committed, file, p)
    }

    /** Opening over what a crash left of both files; page count and catalog root are the header's. */
    constructor Open(file: Image, headerCount: nat, headerRoot: nat, survived: seq<Frame>, ghost bs: seq<Block>)
      requires survived == Flatten(bs)
      ensures Valid() && fresh(wal) && wal.blocks == bs && !wal.inTxn && wal.log == survived
      ensures wal.committed == Recovered(survived) && wal.nextTxnId == 1
      ensures this.file == file && this.headerCount == headerCount && pageCount == headerCount
      ensures this.headerRoot == headerRoot && catalogRoot == if headerRoot > 0 then Some(headerRoot) else None
      ensures forall p :: Content(p) == Settled(Recovered(survived), file, p)
    {
      wal := new Wal.Open(survived, bs);
      this.file, this.headerCount, pageCount := file, headerCount, headerCount;
      this.headerRoot, catalogRoot := headerRoot, if headerRoot > 0 then Some(headerRoot) else None;
    }

    method ReadNode(p: nat) returns (data: Page)
      ensures data == Content(p)
    {
      var r := wal.ReadPage(p);
      data := if r.Some? then r.value else InFile(file, p);
    }

    method WriteNode(p: nat, data: Page)
      requires Valid()
      modifies wal
      ensures Valid() && Content(p) == data
      ensures forall q :: q != p ==> Content(q) == old(Content(q))
      ensures wal.inTxn == old(wal.inTxn) && (old(wal.Agrees()) ==> wal.Agrees())
      ensures wal.inTxn ==>
        && wal.dirty == old(wal.dirty)[p := data] && wal.committed == old(wal.committed)
        && wal.preImage == (
          if p in old(wal.preImage) || old(wal.GetCommittedCopy(p)).None? then old(wal.preImage)
          else old(wal.preImage)[p := old(wal.GetCommittedCopy(p)).value])
        && wal.blocks == old(wal.blocks)
      ensures !wal.inTxn ==>
        && wal.committed == old(wal.committed)[p := data] && wal.nextTxnId == old(wal.nextTxnId) + 1
        && wal.blocks == old(wal.blocks) + [Block(old(wal.nextTxnId), [(p, data)], true)]
      ensures wal.inTxn ==> wal.nextTxnId == old(wal.nextTxnId)
    {
      if wal.inTxn {
        var original := wal.GetCommittedCopy(p);
        if original.Some? {
          wal.SaveOriginal(p, original.value);
        }
      }
      wal.WritePage(p, data);
    }

    method AllocPage() returns (id: nat)
      requires Valid()
      modifies this, wal
      ensures Valid() && id == old(pageCount) && pageCount == id + 1 && headerCount == old(headerCount)
      ensures Content(id) == Blank() && forall q :: q != id ==> Content(q) == old(Content(q))
      ensures file == old(file)[id := Blank()]
      ensures !wal.inTxn ==>
        && wal.committed == old(wal.committed)[id := Blank()] && wal.nextTxnId == old(wal.nextTxnId) + 1
        && wal.blocks == old(wal.blocks) + [Block(old(wal.nextTxnId), [(id, Blank())], true)]
      ensures wal.inTxn == old(wal.inTxn) && (old(wal.Agrees()) ==> wal.Agrees())
    {
      id := pageCount;
      pageCount := pageCount + 1;
      wal.WritePage(id, Blank());
      file := file[id := Blank()];
    }

    method Flush()
      requires Valid()
      modifies this, wal
      ensures Valid() && headerCount == pageCount == old(pageCount)
      ensures forall p :: Content(p) == old(Content(p))
      ensures wal.inTxn == old(wal.inTxn) && (old(wal.Agrees()) ==> wal.Agrees())
      ensures old(|wal.log|) > 0 ==>
        wal.committed == map[] && wal.log == [] && wal.blocks == [] && file == old(file) + old(wal.committed)
      ensures old(|wal.log|) == 0 ==>
        wal.committed == old(wal.committed) && wal.log == [] && wal.blocks == old(wal.blocks) && file == old(file)
      ensures wal.nextTxnId == old(wal.nextTxnId)
    {
      if |wal.log| > 0 {
        file := wal.Checkpoint(file);
      }
      WriteHeader();
    }

    method WriteHeader()
      modifies this`headerCount, this`headerRoot
      ensures headerCount == pageCount && headerRoot == if catalogRoot.Some? then catalogRoot.value else 0
    {
      headerCount, headerRoot := pageCount, if catalogRoot.Some? then catalogRoot.value else 0;
    }

    /** The header is written at once, and with it the page count. */
    method SetCatalogRoot(root: nat)
      modifies this`catalogRoot, this`headerCount, this`headerRoot
      ensures catalogRoot == Some(root) && headerRoot == root && headerCount == pageCount
    {
      catalogRoot := Some(root);
      WriteHeader();
    }

    /** Beginning outside a transaction, and committing, change nothing that is read. */
    method BeginTxn()
      requires Valid()
      modifies wal
      ensures Valid() && wal.inTxn && wal.dirty == map[] && wal.preImage == map[]
      ensures wal.committed == old(wal.committed) && wal.blocks == old(wal.blocks)
          && wal.nextTxnId == old(wal.nextTxnId)
      ensures !old(wal.inTxn) ==> forall p :: Content(p) == old(Content(p))
    {
      wal.Begin();
    }

    method CommitTxn()
      requires Valid()
      modifies wal
      ensures Valid() && !wal.inTxn
      ensures forall p :: Content(p) == old(Content(p))
    {
      wal.Commit();
    }

    method RollbackTxn()
      requires Valid()
      modifies wal
      ensures Valid() && !wal.inTxn
      ensures forall p :: Content(p) == Settled(old(wal.committed) + old(wal.preImage), file, p)
    {
      wal.Rollback();
    }

    /** The writes of one transaction, each saving the pre-image that the source would save. */
    method WriteAll(ws: seq<(nat, Page)>)
      requires Valid() && wal.inTxn && wal.dirty == map[] && wal.preImage == map[]
      modifies wal
      ensures Valid() && wal.inTxn && wal.committed == old(wal.committed) && wal.blocks == old(wal.blocks)
      ensures wal.nextTxnId == old(wal.nextTxnId) && wal.dirty == Written(map[], ws)
      ensures forall p :: Tracked(wal.committed, wal.dirty, wal.preImage, ws, p)
    {
      for i := 0 to |ws|
        invariant Valid() && wal.inTxn && wal.committed == old(wal.committed) && wal.blocks == old(wal.blocks)
        invariant wal.nextTxnId == old(wal.nextTxnId) && wal.dirty == Written(map[], ws[..i])
        invariant forall p :: Tracked(wal.committed, wal.dirty, wal.preImage, ws[..i], p)
      {
        ghost var dirty, preImage, more := wal.dirty, wal.preImage, ws[..i + 1];
        WriteNode(ws[i].0, ws[i].1);
        WrittenSnoc(ws, i);
        forall p
          ensures Tracked(wal.committed, wal.dirty, wal.preImage, more, p)
        {
          assert Tracked(wal.committed, dirty, preImage, ws[..i], p);
          TrackStep(wal.committed, dirty, preImage, ws, i, p);
        }
      }
      assert ws[..|ws|] == ws;
    }

    /** Begin, any writes, rollback: page `p` reads as before the transaction if and only if it
        was in the committed cache, or was written at most once, or its first write changed nothing. */
    method Transact(ws: seq<(nat, Page)>)
      requires Valid()
      modifies wal
      ensures Valid() && !wal.inTxn && wal.blocks == old(wal.blocks) && wal.nextTxnId == old(wal.nextTxnId)
      ensures forall p :: Content(p) == old(Settled(wal.committed, file, p)) <==>
        || p in old(wal.committed) || |WritesTo(ws, p)| <= 1
        || WritesTo(ws, p)[0] == InFile(file, p)
      ensures wal.dirty == map[]
      ensures forall p :: p in wal.committed <==> p in old(wal.committed) || |WritesTo(ws, p)| >= 2
      ensures forall p :: p in wal.committed ==>
        wal.committed[p] == if p in old(wal.committed) then old(wal.committed)[p] else WritesTo(ws, p)[0]
      ensures (forall p :: |WritesTo(ws, p)| >= 2 ==> p in old(wal.committed)) && old(wal.Agrees()) ==> wal.Agrees()
    {
      BeginTxn();
      WriteAll(ws);
      ghost var before, preImage, dirty := wal.committed, wal.preImage, wal.dirty;
      wal.Rollback();
      forall p
        ensures p in wal.committed <==> p in before || |WritesTo(ws, p)| >= 2
        ensures p in wal.committed ==> wal.committed[p] == if p in before then before[p] else WritesTo(ws, p)[0]
      {
        assert Tracked(before, dirty, preImage, ws, p);
      }
      if forall p :: |WritesTo(ws, p)| >= 2 ==> p in before {
        assert wal.committed == before;
      }
    }
  }
}
