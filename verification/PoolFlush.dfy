/** The write-back loop as a fold over its list (buff_flush_all, buff_destroy). */
module PoolFlush {
  import opened Sequences
  import opened Words
  import opened Files
  import opened Store
  import opened Pool
  import opened PoolTheorems

  /** The frame at place i is the last in list order that holds page q. */
  ghost predicate LastHolder(s: Pool, list: seq<nat>, q: nat, i: nat)
    requires Frames(s, list)
  {
    && i < |list| && s.metaframes[list[i]].index == q
    && forall j | i < j < |list| :: s.metaframes[list[j]].index != q
  }

  lemma PutHere(f: File, src: Page, q: nat)
    requires 0 < q && Writable(IndexToOffset(q))
    ensures PageAt(Put(f, src, q, 1).file, q) == src && |f| <= |Put(f, src, q, 1).file|
  {
    WritePage(f, q, src);
    hide WriteAt, PageAt;
  }

  lemma {:induction false} FlushGrows(s: Pool, list: seq<nat>, ups: seq<bool>)
    requires Frames(s, list)
    ensures |s.file| <= |FlushList(s, list, ups).file|
  {
    if list != [] {
      var init, f := list[..|list| - 1], list[|list| - 1];
      FlushGrows(s, init, ups);
      var t := FlushList(s, init, ups);
      PutGrows(t.file, t.buffer[f], t.metaframes[f].index, Io(Up(ups, |list| - 1)));
      hide Put;
    }
  }

  lemma PutGrows(f: File, src: Page, index: int, io: nat)
    ensures |f| <= |Put(f, src, index, io).file|
  {
  }

  /** When all writes go through, each page ends up with the bytes of the last frame in list
      order that holds it. */
  lemma {:induction false} LastWriterWins(s: Pool, list: seq<nat>, q: nat, i: nat)
    requires Frames(s, list) && OnDisk(s, list) && LastHolder(s, list, q, i)
    requires (q + 1) * PAGESIZE <= |s.file|
    ensures PageAt(FlushList(s, list, []).file, q) == s.buffer[list[i]]
  {
    hide Put, PageAt, Writable;
    var init, f := list[..|list| - 1], list[|list| - 1];
    var t := FlushList(s, init, []);
    if i == |init| {
      PutHere(t.file, s.buffer[f], q);
    } else {
      LastWriterWins(s, init, q, i);
      FlushGrows(s, init, []);
      PutElsewhere(t.file, s.buffer[f], s.metaframes[f].index, Io(true), q);
    }
  }

  /** With no page held twice, the order in which the frames are written is of no account. */
  lemma FlushOrderIsIrrelevant(s: Pool, list: seq<nat>, list': seq<nat>, q: nat)
    requires Frames(s, list) && Frames(s, list') && OnDisk(s, list) && OnDisk(s, list')
    requires forall f :: f in list <==> f in list'
    requires forall f, g | f in list && g in list && f != g :: s.metaframes[f].index != s.metaframes[g].index
    requires NoDup(list) && NoDup(list') && (q + 1) * PAGESIZE <= |s.file|
    ensures PageAt(FlushList(s, list, []).file, q) == PageAt(FlushList(s, list', []).file, q)
  {
    hide FlushList, PageAt, OnDisk;
    if i :| 0 <= i < |list| && s.metaframes[list[i]].index == q {
      var f := list[i];
      assert f in list';
      var j :| 0 <= j < |list'| && list'[j] == f;
      forall k | i < k < |list|
        ensures s.metaframes[list[k]].index != q
      {
        assert list[k] in list;
      }
      forall k | j < k < |list'|
        ensures s.metaframes[list'[k]].index != q
      {
        assert list'[k] in list';
      }
      LastWriterWins(s, list, q, i);
      LastWriterWins(s, list', q, j);
    } else {
      forall k | 0 <= k < |list'|
        ensures s.metaframes[list'[k]].index != q
      {
        assert list'[k] in list;
      }
      FlushElsewhereOnDisk(s, list, [], q);
      FlushElsewhereOnDisk(s, list', [], q);
    }
  }
}
