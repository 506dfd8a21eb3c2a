/** The write-ahead log as a sequence of frames, and what replaying it rebuilds (src/pager/wal.rs). */
module WalLog {
  import opened Keys

  type Page = Bytes
  type Image = map<nat, Page>

  datatype Frame = Data(page: nat, txn: nat, data: Page) | Commit(txn: nat)

  /** One transaction as it lies in the log: its page writes in frame order, and whether its
      commit frame follows them (a crash can leave a transaction without one). */
  datatype Block = Block(txn: nat, writes: seq<(nat, Page)>, done: bool)

  function Written(m: Image, ws: seq<(nat, Page)>): Image {
    if ws == [] then m
    else
      var w := ws[|ws| - 1];
      Written(m, ws[..|ws| - 1])[w.0 := w.1]
  }

  function Datas(txn: nat, ws: seq<(nat, Page)>): seq<Frame> {
    if ws == [] then []
    else
      var w := ws[|ws| - 1];
      Datas(txn, ws[..|ws| - 1]) + [Data(w.0, txn, w.1)]
  }

  function Frames(b: Block): seq<Frame> {
    Datas(b.txn, b.writes) + (if b.done then [Commit(b.txn)] else [])
  }

  function Flatten(bs: seq<Block>): seq<Frame> {
    if bs == [] then [] else Flatten(bs[..|bs| - 1]) + Frames(bs[|bs| - 1])
  }

  /** The pages after those transactions of `bs` whose id is in `ids`, in log order. */
  function EffectsOf(bs: seq<Block>, ids: set<nat>): Image {
    if bs == [] then map[]
    else
      var before := EffectsOf(bs[..|bs| - 1], ids);
      if bs[|bs| - 1].txn in ids then Written(before, bs[|bs| - 1].writes) else before
  }

  /** The pages after the committed transactions of `bs`, in commit order. */
  function Effects(bs: seq<Block>): Image {
    if bs == [] then map[]
    else
      var before := Effects(bs[..|bs| - 1]);
      if bs[|bs| - 1].done then Written(before, bs[|bs| - 1].writes) else before
  }

  function Done(bs: seq<Block>): seq<Block> {
    if bs == [] then [] else Done(bs[..|bs| - 1]) + (if bs[|bs| - 1].done then [bs[|bs| - 1]] else [])
  }

  function CommitIds(log: seq<Frame>): set<nat> {
    set f | f in log && f.Commit? :: f.txn
  }

  function DoneIds(bs: seq<Block>): set<nat> {
    set b | b in bs && b.done :: b.txn
  }

  function Redo(log: seq<Frame>, ids: set<nat>, m: Image): Image {
    if log == [] then m
    else
      var f := log[|log| - 1];
      var before := Redo(log[..|log| - 1], ids, m);
      if f.Data? && f.txn in ids then before[f.page := f.data] else before
  }

  /** What a replay of these frames puts into the committed cache. */
  function Recovered(log: seq<Frame>): Image {
    Redo(log, CommitIds(log), map[])
  }

  lemma {:induction false} RedoConcat(a: seq<Frame>, b: seq<Frame>, ids: set<nat>, m: Image)
    ensures Redo(a + b, ids, m) == Redo(b, ids, Redo(a, ids, m))
  {
    if b == [] {
      assert a + b == a;
    } else {
      var n := |b| - 1;
      assert (a + b)[..|a + b| - 1] == a + b[..n] && (a + b)[|a + b| - 1] == b[n];
      RedoConcat(a, b[..n], ids, m);
    }
  }

  lemma {:induction false} RedoDatas(txn: nat, ws: seq<(nat, Page)>, ids: set<nat>, m: Image)
    ensures Redo(Datas(txn, ws), ids, m) == if txn in ids then Written(m, ws) else m
  {
    if ws != [] {
      var n := |ws| - 1;
      var d := Datas(txn, ws);
      assert d[..|d| - 1] == Datas(txn, ws[..n]);
      RedoDatas(txn, ws[..n], ids, m);
    }
  }

  lemma {:induction false} RedoFrames(b: Block, ids: set<nat>, m: Image)
    ensures Redo(Frames(b), ids, m) == if b.txn in ids then Written(m, b.writes) else m
  {
    RedoDatas(b.txn, b.writes, ids, m);
    var mark := if b.done then [Commit(b.txn)] else [];
    RedoConcat(Datas(b.txn, b.writes), mark, ids, m);
    assert b.done ==> mark[..|mark| - 1] == [];
  }

  lemma {:induction false} RedoBlocks(bs: seq<Block>, ids: set<nat>)
    ensures Redo(Flatten(bs), ids, map[]) == EffectsOf(bs, ids)
  {
    if bs != [] {
      var n := |bs| - 1;
      RedoBlocks(bs[..n], ids);
      RedoConcat(Flatten(bs[..n]), Frames(bs[n]), ids, map[]);
      RedoFrames(bs[n], ids, EffectsOf(bs[..n], ids));
    }
  }

  lemma {:induction false} IdsConcat(a: seq<Frame>, b: seq<Frame>)
    ensures CommitIds(a + b) == CommitIds(a) + CommitIds(b)
  {
    forall x | x in CommitIds(a) + CommitIds(b)
      ensures x in CommitIds(a + b)
    {
      assert exists f :: f in a + b && f.Commit? && f.txn == x by {
        var f :| (f in a || f in b) && f.Commit? && f.txn == x;
        assert f in a + b;
      }
    }
  }

  lemma {:induction false} NoCommits(txn: nat, ws: seq<(nat, Page)>)
    ensures CommitIds(Datas(txn, ws)) == {} && |Datas(txn, ws)| == |ws|
  {
    if ws != [] {
      var n := |ws| - 1;
      NoCommits(txn, ws[..n]);
      IdsConcat(Datas(txn, ws[..n]), [Data(ws[n].0, txn, ws[n].1)]);
    }
  }

  lemma {:induction false} FlattenIds(bs: seq<Block>)
    ensures CommitIds(Flatten(bs)) == DoneIds(bs)
  {
    if bs != [] {
      var n := |bs| - 1;
      var b := bs[n];
      FlattenIds(bs[..n]);
      NoCommits(b.txn, b.writes);
      var mark := if b.done then [Commit(b.txn)] else [];
      IdsConcat(Flatten(bs[..n]), Frames(b));
      IdsConcat(Datas(b.txn, b.writes), mark);
      assert CommitIds(mark) == if b.done then {b.txn} else {} by { assert b.done ==> Commit(b.txn) in mark; }
      DoneIdsSnoc(bs[..n], b);
      assert bs == bs[..n] + [b];
    }
  }

  lemma {:induction false} DoneIdsSnoc(bs: seq<Block>, b: Block)
    ensures DoneIds(bs + [b]) == DoneIds(bs) + (if b.done then {b.txn} else {})
  {
    forall x | x in DoneIds(bs) + (if b.done then {b.txn} else {})
      ensures x in DoneIds(bs + [b])
    {
      var c :| (c in bs || c == b) && c.done && c.txn == x;
      assert c in bs + [b];
    }
  }

  /** Exactly what a replay rebuilds from any log: the writes, in log order, of every
      transaction whose id some commit frame bears. */
  lemma {:induction false} RecoveredExactly(bs: seq<Block>)
    ensures Recovered(Flatten(bs)) == EffectsOf(bs, DoneIds(bs))
  {
    FlattenIds(bs);
    RedoBlocks(bs, DoneIds(bs));
  }

  /** No unfinished transaction bears the id of a committed one. */
  ghost predicate Clean(bs: seq<Block>) {
    forall b :: b in bs && !b.done ==> b.txn !in DoneIds(bs)
  }

  lemma {:induction false} CleanEffects(bs: seq<Block>, ids: set<nat>)
    requires forall b :: b in bs ==> (b.txn in ids <==> b.done)
    ensures EffectsOf(bs, ids) == Effects(bs)
  {
    if bs != [] {
      CleanEffects(bs[..|bs| - 1], ids);
    }
  }

  lemma {:induction false} CleanRecovery(bs: seq<Block>)
    requires Clean(bs)
    ensures Recovered(Flatten(bs)) == Effects(bs)
  {
    RecoveredExactly(bs);
    CleanEffects(bs, DoneIds(bs));
  }

  /** After one unfinished transaction the replay is right if and only if its id is new or its
      writes change nothing. */
  lemma {:induction false} CutRecovery(bs: seq<Block>, txn: nat, ws: seq<(nat, Page)>)
    requires Clean(bs)
    ensures Recovered(Flatten(bs) + Datas(txn, ws)) == Effects(bs) <==>
      txn !in DoneIds(bs) || Written(Effects(bs), ws) == Effects(bs)
  {
    var cut := Block(txn, ws, false);
    var all := bs + [cut];
    assert all[..|all| - 1] == bs && all[|all| - 1] == cut;
    assert Flatten(all) == Flatten(bs) + Datas(txn, ws);
    RecoveredExactly(all);
    DoneIdsSnoc(bs, cut);
    CleanEffects(bs, DoneIds(bs));
    assert DoneIds(all) == DoneIds(bs);
    assert Recovered(Flatten(bs) + Datas(txn, ws)) == EffectsOf(all, DoneIds(bs));
    assert EffectsOf(all, DoneIds(bs)) == if txn in DoneIds(bs) then Written(Effects(bs), ws) else Effects(bs);
  }

  /** Ids are fresh when every transaction's id differs from all earlier ones. */
  ghost predicate FreshIds(bs: seq<Block>) {
    forall i, j :: 0 <= i < j < |bs| ==> bs[i].txn != bs[j].txn
  }

  lemma {:induction false} FreshIsClean(bs: seq<Block>)
    requires FreshIds(bs)
    ensures Clean(bs)
  {
    forall b | b in bs && !b.done
      ensures b.txn !in DoneIds(bs)
    {
      var i :| 0 <= i < |bs| && bs[i] == b;
      forall c | c in bs && c.done
        ensures c.txn != b.txn
      {
        var j :| 0 <= j < |bs| && bs[j] == c;
        assert i != j;
      }
    }
  }

  function CommitCount(log: seq<Frame>): nat {
    if log == [] then 0
    else CommitCount(log[..|log| - 1]) + (if log[|log| - 1].Commit? then 1 else 0)
  }

  lemma {:induction false} CountConcat(a: seq<Frame>, b: seq<Frame>)
    ensures CommitCount(a + b) == CommitCount(a) + CommitCount(b)
  {
    if b == [] {
      assert a + b == a;
    } else {
      var n := |b| - 1;
      assert (a + b)[..|a + b| - 1] == a + b[..n] && (a + b)[|a + b| - 1] == b[n];
      CountConcat(a, b[..n]);
    }
  }

  lemma {:induction false} CountDatas(txn: nat, ws: seq<(nat, Page)>)
    ensures CommitCount(Datas(txn, ws)) == 0
  {
    if ws != [] {
      var n := |ws| - 1;
      var d := Datas(txn, ws);
      assert d[..|d| - 1] == Datas(txn, ws[..n]);
      CountDatas(txn, ws[..n]);
    }
  }

  lemma {:induction false} CountBlocks(bs: seq<Block>)
    ensures CommitCount(Flatten(bs)) == |Done(bs)| && Effects(Done(bs)) == Effects(bs)
  {
    if bs != [] {
      var n := |bs| - 1;
      var b := bs[n];
      CountBlocks(bs[..n]);
      var mark := if b.done then [Commit(b.txn)] else [];
      CountConcat(Flatten(bs[..n]), Frames(b));
      CountConcat(Datas(b.txn, b.writes), mark);
      CountDatas(b.txn, b.writes);
      assert b.done ==> mark[..|mark| - 1] == [];
      DoneSnoc(bs);
    }
  }

  lemma {:induction false} DoneSnoc(bs: seq<Block>)
    requires bs != []
    ensures var b, before := bs[|bs| - 1], Done(bs[..|bs| - 1]);
      Effects(Done(bs)) == if b.done then Written(Effects(before), b.writes) else Effects(before)
  {
    var b, before := bs[|bs| - 1], Done(bs[..|bs| - 1]);
    var d := Done(bs);
    if b.done {
      assert d[..|d| - 1] == before && d[|d| - 1] == b;
    } else {
      assert d == before;
    }
  }

  lemma {:induction false} DonePrefix(a: seq<Block>, b: seq<Block>)
    ensures Done(a + b) == Done(a) + Done(b)
  {
    if b == [] {
      assert a + b == a;
    } else {
      var n := |b| - 1;
      assert (a + b)[..|a + b| - 1] == a + b[..n] && (a + b)[|a + b| - 1] == b[n];
      DonePrefix(a, b[..n]);
    }
  }

  lemma {:induction false} DatasPrefix(txn: nat, ws: seq<(nat, Page)>, k: nat)
    requires k <= |ws|
    ensures |Datas(txn, ws)| == |ws| && Datas(txn, ws)[..k] == Datas(txn, ws[..k])
  {
    if ws != [] {
      var n := |ws| - 1;
      if k == |ws| {
        DatasPrefix(txn, ws[..n], n);
        assert ws[..k] == ws;
      } else {
        DatasPrefix(txn, ws[..n], k);
        assert ws[..n][..k] == ws[..k];
      }
    }
  }

  /** Any proper prefix of the log is some transactions and a part of the next one. */
  lemma {:induction false} PrefixShape(bs: seq<Block>, k: nat) returns (j: nat, i: nat)
    requires k < |Flatten(bs)|
    ensures j < |bs| && i <= |bs[j].writes|
    ensures Flatten(bs)[..k] == Flatten(bs[..j] + [Block(bs[j].txn, bs[j].writes[..i], false)])
  {
    var n := |bs| - 1;
    var a, b := Flatten(bs[..n]), bs[n];
    if k < |a| {
      j, i := PrefixShape(bs[..n], k);
      assert bs[..n][..j] == bs[..j];
      assert Flatten(bs)[..k] == a[..k];
    } else {
      j, i := n, k - |a|;
      NoCommits(b.txn, b.writes);
      DatasPrefix(b.txn, b.writes, i);
      assert Flatten(bs)[..k] == a + Frames(b)[..i];
      assert Frames(b)[..i] == Datas(b.txn, b.writes)[..i];
      var cut := bs[..n] + [Block(b.txn, b.writes[..i], false)];
      assert cut[..|cut| - 1] == bs[..n];
    }
  }

  /** With fresh ids, replaying what survives of the log after a crash at any frame rebuilds
      exactly the transactions whose commit frame survived, in commit order. */
  lemma {:induction false} CrashRecovery(bs: seq<Block>, k: nat)
    requires FreshIds(bs) && k <= |Flatten(bs)|
    ensures CommitCount(Flatten(bs)[..k]) <= |Done(bs)|
    ensures Recovered(Flatten(bs)[..k]) == Effects(Done(bs)[..CommitCount(Flatten(bs)[..k])])
  {
    if k == |Flatten(bs)| {
      assert Flatten(bs)[..k] == Flatten(bs);
      CountBlocks(bs);
      FreshIsClean(bs);
      CleanRecovery(bs);
      assert Done(bs)[..|Done(bs)|] == Done(bs);
    } else {
      var j, i := PrefixShape(bs, k);
      var part := Block(bs[j].txn, bs[j].writes[..i], false);
      var cut := bs[..j] + [part];
      assert FreshIds(cut);
      FreshIsClean(cut);
      CleanRecovery(cut);
      CountBlocks(cut);
      assert cut[..|cut| - 1] == bs[..j];
      assert Done(cut) == Done(bs[..j]) + [];
      DonePrefix(bs[..j], bs[j..]);
      assert bs == bs[..j] + bs[j..];
      assert Done(bs)[..|Done(cut)|] == Done(cut);
    }
  }

  /** A reused id makes an uncommitted write reappear: the state a reopened log can reach,
      since numbering restarts at 1. */
  lemma {:induction false} ReusedIdResurrects(p: nat, a: Page, b: Page)
    requires a != b
    ensures var first := Block(1, [(p, a)], true);
      && Recovered(Flatten([first]) + Datas(1, [(p, b)])) != Effects([first])
      && Effects([first]) == map[p := a]
  {
    var first := Block(1, [(p, a)], true);
    CutRecovery([first], 1, [(p, b)]);
    assert first in [first];
    assert [(p, a)][..0] == [] && [first][..0] == [] && [(p, b)][..0] == [];
    assert Effects([first]) == Written(Effects([]), [(p, a)]) == map[p := a];
    assert Written(Effects([first]), [(p, b)])[p] == b;
  }

  /** Listing the bindings of `d` in any order and writing them one by one is `m + d`. */
  ghost predicate Lists(ws: seq<(nat, Page)>, d: Image) {
    && (forall i :: 0 <= i < |ws| ==> ws[i].0 in d && d[ws[i].0] == ws[i].1)
    && (forall p :: p in d ==> (p, d[p]) in ws)
  }

  lemma {:induction false} WrittenAt(m: Image, ws: seq<(nat, Page)>, d: Image)
    requires forall i :: 0 <= i < |ws| ==> ws[i].0 in d && d[ws[i].0] == ws[i].1
    ensures forall p :: p in Written(m, ws) <==> p in m || (p in d && (p, d[p]) in ws)
    ensures forall p :: p in Written(m, ws) ==> Written(m, ws)[p] == if p in d && (p, d[p]) in ws then d[p] else m[p]
  {
    if ws != [] {
      var n := |ws| - 1;
      WrittenAt(m, ws[..n], d);
      assert ws == ws[..n] + [ws[n]];
    }
  }

  lemma {:induction false} WrittenInAnyOrder(m: Image, ws: seq<(nat, Page)>, d: Image)
    requires Lists(ws, d)
    ensures Written(m, ws) == m + d
  {
    WrittenAt(m, ws, d);
  }

  // ------------------------------------------------------------------
  // Damaged frames.
  // ------------------------------------------------------------------

  /** A place in the log file: a frame, bytes whose checksum fails, or the torn end of the file. */
  datatype Stored = Whole(frame: Frame) | Damaged | Torn

  /** What a replay reads: damaged frames are passed over, a torn one ends the reading. */
  function Readable(stored: seq<Stored>): seq<Frame> {
    if stored == [] || stored[0].Torn? then []
    else (if stored[0].Whole? then [stored[0].frame] else []) + Readable(stored[1..])
  }

  /** The elements whose mark is set. */
  function Kept<T>(s: seq<T>, marks: seq<bool>): seq<T>
    requires |marks| == |s|
  {
    if s == [] then [] else Kept(s[..|s| - 1], marks[..|s| - 1]) + (if marks[|s| - 1] then [s[|s| - 1]] else [])
  }

  /** A log file in which the unmarked frames are damaged. */
  function Struck(log: seq<Frame>, marks: seq<bool>): seq<Stored>
    requires |marks| == |log|
  {
    seq(|log|, i requires 0 <= i < |log| => if marks[i] then Whole(log[i]) else Damaged)
  }

  lemma {:induction false} ReadableConcat(a: seq<Stored>, b: seq<Stored>)
    requires forall i :: 0 <= i < |a| ==> !a[i].Torn?
    ensures Readable(a + b) == Readable(a) + Readable(b)
  {
    if a == [] {
      assert a + b == b;
    } else {
      assert (a + b)[1..] == a[1..] + b;
      ReadableConcat(a[1..], b);
    }
  }

  lemma {:induction false} ReadableStruck(log: seq<Frame>, marks: seq<bool>)
    requires |marks| == |log|
    ensures Readable(Struck(log, marks)) == Kept(log, marks)
  {
    if log != [] {
      var n := |log| - 1;
      ReadableStruck(log[..n], marks[..n]);
      var all, last := Struck(log, marks), Struck(log, marks)[n..];
      assert all == Struck(log[..n], marks[..n]) + last && last[1..] == [];
      ReadableConcat(Struck(log[..n], marks[..n]), last);
    }
  }

  lemma {:induction false} KeptConcat<T>(a: seq<T>, b: seq<T>, ma: seq<bool>, mb: seq<bool>)
    requires |ma| == |a| && |mb| == |b|
    ensures Kept(a + b, ma + mb) == Kept(a, ma) + Kept(b, mb)
  {
    if b == [] {
      assert a + b == a && ma + mb == ma;
    } else {
      var n := |b| - 1;
      assert (a + b)[..|a + b| - 1] == a + b[..n] && (ma + mb)[..|a + b| - 1] == ma + mb[..n];
      assert (a + b)[|a + b| - 1] == b[n] && (ma + mb)[|a + b| - 1] == mb[n];
      KeptConcat(a, b[..n], ma, mb[..n]);
    }
  }

  /** A transaction without its damaged frames: some writes lost, and with the commit frame lost,
      unfinished. */
  function Hurt(b: Block, marks: seq<bool>): Block
    requires |marks| == |b.writes| + (if b.done then 1 else 0)
  {
    Block(b.txn, Kept(b.writes, marks[..|b.writes|]), b.done && marks[|b.writes|])
  }

  lemma {:induction false} KeptDatas(txn: nat, ws: seq<(nat, Page)>, marks: seq<bool>)
    requires |marks| == |ws|
    ensures |Datas(txn, ws)| == |ws| && Kept(Datas(txn, ws), marks) == Datas(txn, Kept(ws, marks))
  {
    if ws != [] {
      var n := |ws| - 1;
      KeptDatas(txn, ws[..n], marks[..n]);
      var d, k := Datas(txn, ws), Kept(ws[..n], marks[..n]);
      assert d[..n] == Datas(txn, ws[..n]) && d[n] == Data(ws[n].0, txn, ws[n].1);
      if marks[n] {
        assert Kept(ws, marks) == k + [ws[n]];
        assert (k + [ws[n]])[..|k|] == k;
        assert Datas(txn, k + [ws[n]]) == Datas(txn, k) + [d[n]];
        assert Kept(d, marks) == Kept(d[..n], marks[..n]) + [d[n]];
      } else {
        assert Kept(ws, marks) == k + [] == k;
        assert Kept(d, marks) == Kept(d[..n], marks[..n]) + [] == Kept(d[..n], marks[..n]);
      }
    }
  }

  lemma {:induction false} KeptFrames(b: Block, marks: seq<bool>)
    requires |marks| == |b.writes| + (if b.done then 1 else 0)
    ensures |Frames(b)| == |marks| && Kept(Frames(b), marks) == Frames(Hurt(b, marks))
  {
    var n := |b.writes|;
    KeptDatas(b.txn, b.writes, marks[..n]);
    if b.done {
      assert marks == marks[..n] + [marks[n]];
      KeptConcat(Datas(b.txn, b.writes), [Commit(b.txn)], marks[..n], [marks[n]]);
      assert [Commit(b.txn)][..0] == [] && [marks[n]][..0] == [];
    } else {
      assert marks == marks[..n] && Frames(b) == Datas(b.txn, b.writes);
    }
  }

  /** The frames of these transactions. */
  function FrameTotal(bs: seq<Block>): nat {
    if bs == [] then 0 else FrameTotal(bs[..|bs| - 1]) + FrameSize(bs[|bs| - 1])
  }

  function FrameSize(b: Block): nat { |b.writes| + (if b.done then 1 else 0) }

  /** Each transaction without its own damaged frames. */
  function HurtAll(bs: seq<Block>, marks: seq<bool>): (hurt: seq<Block>)
    requires |marks| == FrameTotal(bs)
    ensures |hurt| == |bs| && forall i :: 0 <= i < |bs| ==> hurt[i].txn == bs[i].txn
  {
    if bs == [] then []
    else
      var n := FrameTotal(bs[..|bs| - 1]);
      HurtAll(bs[..|bs| - 1], marks[..n]) + [Hurt(bs[|bs| - 1], marks[n..])]
  }

  lemma {:induction false} LogLength(bs: seq<Block>)
    ensures |Flatten(bs)| == FrameTotal(bs)
  {
    if bs != [] {
      LogLength(bs[..|bs| - 1]);
      FrameCount(bs[|bs| - 1]);
    }
  }

  lemma {:induction false} FrameCount(b: Block)
    ensures |Frames(b)| == FrameSize(b)
  {
    DatasPrefix(b.txn, b.writes, 0);
  }

  /** Damaging frames leaves the log of the transactions without them. */
  lemma {:induction false} DamagedBlocks(bs: seq<Block>, marks: seq<bool>)
    requires |marks| == |Flatten(bs)| == FrameTotal(bs)
    ensures Kept(Flatten(bs), marks) == Flatten(HurtAll(bs, marks))
  {
    hide Kept, Frames, Datas, Hurt;
    NothingKept(marks);
    if bs != [] {
      var n := |bs| - 1;
      var a, f := Flatten(bs[..n]), Frames(bs[n]);
      LogLength(bs[..n]);
      FrameCount(bs[n]);
      DamagedBlocks(bs[..n], marks[..|a|]);
      KeptFrames(bs[n], marks[|a|..]);
      assert marks == marks[..|a|] + marks[|a|..];
      KeptConcat(a, f, marks[..|a|], marks[|a|..]);
      var hurt := HurtAll(bs, marks);
      assert hurt[..n] == HurtAll(bs[..n], marks[..|a|]) && hurt[n] == Hurt(bs[n], marks[|a|..]);
    }
  }

  lemma {:induction false} NothingKept(marks: seq<bool>)
    ensures marks == [] ==> Kept<Frame>([], marks) == []
  {
  }

  /** With fresh ids, replaying a damaged log rebuilds exactly the transactions whose commit frame is
      whole, each without the writes whose frames are damaged. */
  lemma {:induction false} DamagedReplay(bs: seq<Block>, marks: seq<bool>)
    requires FreshIds(bs) && |marks| == |Flatten(bs)|
    ensures |marks| == FrameTotal(bs)
    ensures Recovered(Readable(Struck(Flatten(bs), marks))) == Effects(HurtAll(bs, marks))
  {
    LogLength(bs);
    DamagedBlocks(bs, marks);
    ReadableStruck(Flatten(bs), marks);
    FreshIsClean(HurtAll(bs, marks));
    CleanRecovery(HurtAll(bs, marks));
  }

  // ------------------------------------------------------------------
  // When a damaged log still replays right, page by page.
  // ------------------------------------------------------------------

  function PageAt(m: Image, p: nat): Option<Page> { if p in m then Some(m[p]) else None }

  /** The transactions with a whole commit frame, with all they wrote. */
  function Certified(bs: seq<Block>, marks: seq<bool>): (cs: seq<Block>)
    requires |marks| == FrameTotal(bs)
    ensures |cs| == |bs|
  {
    if bs == [] then []
    else
      var b, n := bs[|bs| - 1], FrameTotal(bs[..|bs| - 1]);
      Certified(bs[..|bs| - 1], marks[..n]) + [b.(done := b.done && marks[n..][|b.writes|])]
  }

  /** The writes to page `p` among `ws`, each with the mark of its frame. */
  function MarkedTo(ws: seq<(nat, Page)>, marks: seq<bool>, p: nat): seq<(Page, bool)>
    requires |marks| == |ws|
  {
    if ws == [] then []
    else
      var n := |ws| - 1;
      MarkedTo(ws[..n], marks[..n], p) + (if ws[n].0 == p then [(ws[n].1, marks[n])] else [])
  }

  /** The writes to page `p` by the transactions with a whole commit frame, in log order. */
  function History(bs: seq<Block>, marks: seq<bool>, p: nat): seq<(Page, bool)>
    requires |marks| == FrameTotal(bs)
  {
    if bs == [] then []
    else
      var b, n := bs[|bs| - 1], FrameTotal(bs[..|bs| - 1]);
      var own := marks[n..];
      History(bs[..|bs| - 1], marks[..n], p)
      + (if b.done && own[|b.writes|] then MarkedTo(b.writes, own[..|b.writes|], p) else [])
  }

  function Latest(h: seq<(Page, bool)>): Option<Page> { if h == [] then None else Some(h[|h| - 1].0) }

  function LastWhole(h: seq<(Page, bool)>): Option<Page> {
    if h == [] then None else if h[|h| - 1].1 then Some(h[|h| - 1].0) else LastWhole(h[..|h| - 1])
  }

  lemma {:induction false} LastOfConcat(a: seq<(Page, bool)>, b: seq<(Page, bool)>)
    ensures Latest(a + b) == if b == [] then Latest(a) else Latest(b)
    ensures LastWhole(a + b) == if LastWhole(b).Some? then LastWhole(b) else LastWhole(a)
  {
    if b == [] {
      assert a + b == a;
    } else {
      assert (a + b)[..|a + b| - 1] == a + b[..|b| - 1];
      LastOfConcat(a, b[..|b| - 1]);
    }
  }

  lemma {:induction false} OneMoreMarked(ws: seq<(nat, Page)>, marks: seq<bool>, p: nat)
    requires |marks| == |ws| && ws != []
    ensures var n := |ws| - 1; var h := MarkedTo(ws[..n], marks[..n], p);
      && MarkedTo(ws, marks, p) == (if ws[n].0 == p then h + [(ws[n].1, marks[n])] else h)
      && Latest(h + [(ws[n].1, marks[n])]) == Some(ws[n].1)
      && LastWhole(h + [(ws[n].1, marks[n])]) == if marks[n] then Some(ws[n].1) else LastWhole(h)
  {
    var n := |ws| - 1;
    var h := MarkedTo(ws[..n], marks[..n], p);
    assert h + [] == h && (h + [(ws[n].1, marks[n])])[..|h|] == h;
  }

  lemma {:induction false} OneMoreKept(m: Image, ws: seq<(nat, Page)>, marks: seq<bool>)
    requires |marks| == |ws| && ws != []
    ensures var n := |ws| - 1; var w := Written(m, Kept(ws[..n], marks[..n]));
      Written(m, Kept(ws, marks)) == if marks[n] then w[ws[n].0 := ws[n].1] else w
  {
    var n := |ws| - 1;
    var kept := Kept(ws[..n], marks[..n]);
    if marks[n] {
      assert Kept(ws, marks) == kept + [ws[n]] && (kept + [ws[n]])[..|kept|] == kept;
    } else {
      assert Kept(ws, marks) == kept + [] == kept;
    }
  }

  lemma {:induction false} WroteAt(m: Image, ws: seq<(nat, Page)>, marks: seq<bool>, p: nat)
    requires |marks| == |ws|
    ensures var h := MarkedTo(ws, marks, p);
      && PageAt(Written(m, ws), p) == (if Latest(h).None? then PageAt(m, p) else Latest(h))
      && PageAt(Written(m, Kept(ws, marks)), p) == (if LastWhole(h).None? then PageAt(m, p) else LastWhole(h))
  {
    hide LastWhole;
    NoHistory();
    if ws != [] {
      hide Kept, MarkedTo, Latest;
      var n := |ws| - 1;
      WroteAt(m, ws[..n], marks[..n], p);
      OneMoreMarked(ws, marks, p);
      OneMoreKept(m, ws, marks);
    }
  }

  lemma {:induction false} HistoryTold(bs: seq<Block>, marks: seq<bool>, p: nat)
    requires |marks| == FrameTotal(bs)
    ensures PageAt(Effects(Certified(bs, marks)), p) == Latest(History(bs, marks, p))
    ensures PageAt(Effects(HurtAll(bs, marks)), p) == LastWhole(History(bs, marks, p))
  {
    hide Written, MarkedTo, LastWhole;
    NoHistory();
    if bs != [] {
      var n := |bs| - 1;
      var b, k := bs[n], FrameTotal(bs[..n]);
      var own := marks[k..];
      HistoryTold(bs[..n], marks[..k], p);
      var cs, hurt := Certified(bs, marks), HurtAll(bs, marks);
      assert cs[..n] == Certified(bs[..n], marks[..k]) && hurt[..n] == HurtAll(bs[..n], marks[..k]);
      if b.done && own[|b.writes|] {
        WroteAt(Effects(cs[..n]), b.writes, own[..|b.writes|], p);
        WroteAt(Effects(hurt[..n]), b.writes, own[..|b.writes|], p);
        LastOfConcat(History(bs[..n], marks[..k], p), MarkedTo(b.writes, own[..|b.writes|], p));
      } else {
        assert History(bs, marks, p) == History(bs[..n], marks[..k], p) + [] == History(bs[..n], marks[..k], p);
      }
    }
  }

  lemma {:induction false} NoHistory()
    ensures LastWhole([]) == None
  {
  }

  /** A page is recovered as the transactions with a whole commit frame left it if and only if none of
      them wrote it, or the frame of their last write to it is whole, or the last whole one carries the
      same bytes. */
  lemma {:induction false} RecoveredRight(bs: seq<Block>, marks: seq<bool>, p: nat)
    requires FreshIds(bs) && |marks| == |Flatten(bs)| == FrameTotal(bs)
    ensures var h := History(bs, marks, p);
      PageAt(Recovered(Readable(Struck(Flatten(bs), marks))), p) == PageAt(Effects(Certified(bs, marks)), p) <==>
        h == [] || h[|h| - 1].1 || LastWhole(h) == Some(h[|h| - 1].0)
  {
    hide Flatten, History, Certified, HurtAll, Effects, Recovered;
    DamagedReplay(bs, marks);
    HistoryTold(bs, marks, p);
  }

  /** So a committed transaction can come back in part: with one of its two data frames damaged, one
      page is new and the other is not there. */
  lemma {:induction false} PartialReplay(p: nat, q: nat, a: Page, b: Page)
    requires p != q
    ensures var txn := Block(1, [(p, a), (q, b)], true);
      && Flatten([txn]) == [Data(p, 1, a), Data(q, 1, b), Commit(1)] && Effects([txn]) == map[p := a, q := b]
      && Recovered(Readable(Struck(Flatten([txn]), [false, true, true]))) == map[q := b]
  {
    var txn, log := Block(1, [(p, a), (q, b)], true), [Data(p, 1, a), Data(q, 1, b), Commit(1)];
    assert [txn][..0] == [] && txn.writes[..1] == [(p, a)] && [(p, a)][..0] == [];
    assert Datas(1, txn.writes) == Datas(1, [(p, a)]) + [Data(q, 1, b)] && Datas(1, [(p, a)]) == [Data(p, 1, a)];
    assert Flatten([txn]) == log;
    assert Effects([txn]) == Written(map[], txn.writes) == Written(map[], [(p, a)])[q := b] == map[p := a][q := b];
    var left := Block(1, [(q, b)], true);
    assert [left][..0] == [] && [(q, b)][..0] == [];
    assert Flatten([left]) == [Data(q, 1, b), Commit(1)];
    var stored := Struck(log, [false, true, true]);
    assert stored == [Damaged, Whole(log[1]), Whole(log[2])];
    assert stored[1..] == [Whole(log[1]), Whole(log[2])] && stored[1..][1..] == [Whole(log[2])];
    assert Readable([Whole(log[2])]) == [log[2]];
    assert Readable(stored) == [log[1], log[2]] == Flatten([left]);
    CleanRecovery([left]);
    assert Effects([left]) == Written(map[], [(q, b)]) == map[q := b];
  }

  /** Every sequence of frames is the log of some transactions. */
  lemma {:induction false} AnyLog(log: seq<Frame>) returns (bs: seq<Block>)
    ensures Flatten(bs) == log
  {
    bs := [];
    if log != [] {
      var n := |log| - 1;
      bs := AnyLog(log[..n]);
      var b := if log[n].Data? then Block(log[n].txn, [(log[n].page, log[n].data)], false)
          else Block(log[n].txn, [], true);
      assert (bs + [b])[..|bs|] == bs && (log[n].Data? ==> [(log[n].page, log[n].data)][..0] == []);
      assert b.writes != [] ==> Datas(b.txn, b.writes) == Datas(b.txn, []) + [log[n]];
      assert Frames(b) == [log[n]];
      bs := bs + [b];
    }
  }
}
