/** Where buffer_manager.c as it is written does not keep what buffer_manager.h says of its
    lists and its table, and exactly when. */
module PoolFaults {
  import opened Wrappers
  import opened Sequences
  import opened Words
  import opened Files
  import opened Store
  import opened StoreInvariant
  import opened StoreQueue
  import opened StoreFaults
  import opened Pool
  import opened PoolInvariant
  import opened PoolRuns
  import opened PoolTheorems

  /** Some pair of lists makes the pool tidy. */
  ghost predicate InOrder(s: Pool) {
    exists free, wb :: Tidy(s, free, wb)
  }

  // ----- buff_create -----

  /** buff_create starts the free list at the first frame without asking whether there is
      one: the pool it makes is in order exactly if it has a frame. */
  lemma CreatedExact(frames: nat, file: File)
    ensures InOrder(Created(frames, file)) <==> 0 < frames
  {
    if 0 < frames {
      CreatedIsTidy(frames, file);
    }
  }

  // ----- buff_pin -----

  /** buff_pin as written leaves the lists and the table in order exactly if it returns before
      it has done anything: on the metadata page, without a free frame, or on a table hit.  A
      failed read leaves an entry for an unpinned frame, a good one leaves the pinned frame at
      the head of the free list, and with a single free frame it follows NULL. */
  lemma PinAsWrittenExact(s: Pool, free: seq<nat>, wb: seq<nat>, index: int, io: nat)
    requires Tidy(s, free, wb)
    ensures var r := PinAsWritten(s, index, io);
      (r.Finished? && InOrder(r.result.pool)) <==> (index == METADATA || s.freelist == None || index in s.table)
  {
    var r := PinAsWritten(s, index, io);
    if index == METADATA || s.freelist == None || index in s.table {
      assert r.result.pool == s;
    } else if r.Finished? {
      var f := s.freelist.value;
      assert free[0] == f && f in free;
      hide Get;
      forall free', wb'
        ensures !Tidy(r.result.pool, free', wb')
      {
        HeadIsUnpinned(r.result.pool, free', wb');
        assert r.result.pool.table[index] == f;
      }
    }
  }

  lemma HeadIsUnpinned(s: Pool, free: seq<nat>, wb: seq<nat>)
    ensures Tidy(s, free, wb) && s.freelist.Some? ==>
      s.freelist.value < |s.metaframes| && s.metaframes[s.freelist.value].state == Unpinned
  {
    assert free == [] || free[0] in free;
  }

  /** A table hit is answered with a frame that is not the page's, nor anyone's. */
  lemma HitAsWritten(s: Pool, free: seq<nat>, wb: seq<nat>, index: int, io: nat)
    requires Tidy(s, free, wb) && index != METADATA && s.freelist.Some? && index in s.table
    ensures var r := PinAsWritten(s, index, io);
      && r.Finished? && r.result.status == Ok
      && r.result.frame != Some(s.table[index])
      && s.metaframes[r.result.frame.value].state == Unpinned
      && Pin(s, index, io).frame == Some(s.table[index])
  {
    assert free[0] in free;
  }

  /** Two pages pinned one after the other get the same frame, and the second overwrites the
      first. */
  lemma PinTwiceAsWritten(s: Pool, p: int, q: int, io: nat, io': nat)
    requires Pointers(s) && p != q && q !in s.table
    requires var r := PinAsWritten(s, p, io); r.Finished? && r.result.status == Ok && p !in s.table
    requires var r := PinAsWritten(PinAsWritten(s, p, io).result.pool, q, io'); r.Finished? && r.result.status == Ok
    ensures var first := PinAsWritten(s, p, io).result;
      var second := PinAsWritten(first.pool, q, io').result;
      && first.frame == second.frame && first.frame.Some?
      && second.pool.table[p] == second.pool.table[q]
      && second.pool.metaframes[first.frame.value].index == q
  {
    hide Get;
  }

  // ----- buff_flush_all -----

  /** A list is determined by the pointers. */
  lemma LinkedIsUnique(metas: seq<MetaFrame>, link: Option<nat>, l: seq<nat>, l': seq<nat>)
    requires Linked(metas, link, l) && Linked(metas, link, l')
    ensures l == l'
  {
    ChainIsList(metas, link, l, |l| + |l'|);
    ChainIsList(metas, link, l', |l| + |l'|);
  }

  /** buff_flush_all as written leaves the frames it has cleaned on the writeback list: the
      lists stay in order exactly if no write went through at all; on a disk that takes all
      writes, exactly if there was nothing to write. */
  lemma FlushAsWrittenExact(s: Pool, free: seq<nat>, wb: seq<nat>, ups: seq<bool>)
    requires Tidy(s, free, wb) && Frames(s, wb) && OnDisk(s, wb)
    ensures InOrder(FlushList(s, wb, ups)) <==> forall i | 0 <= i < |wb| :: !Up(ups, i)
    ensures (forall i: nat :: Up(ups, i)) ==> (InOrder(FlushList(s, wb, ups)) <==> s.writeback == None)
  {
    if i :| 0 <= i < |wb| && Up(ups, i) {
      SomethingFlushed(s, free, wb, ups, i);
    } else {
      NothingFlushed(s, wb, ups);
    }
    hide Tidy, FlushList, OnDisk;
    assert s.writeback == None <==> wb == [] by { WritebackIsNull(s, free, wb); }
    assert wb != [] && (forall i: nat :: Up(ups, i)) ==> Up(ups, 0);
  }

  lemma WritebackIsNull(s: Pool, free: seq<nat>, wb: seq<nat>)
    requires Tidy(s, free, wb)
    ensures s.writeback == None <==> wb == []
  {
  }

  lemma SomethingFlushed(s: Pool, free: seq<nat>, wb: seq<nat>, ups: seq<bool>, i: nat)
    requires Tidy(s, free, wb) && Frames(s, wb) && OnDisk(s, wb) && i < |wb| && Up(ups, i)
    ensures !InOrder(FlushList(s, wb, ups))
  {
    hide FlushList, OnDisk, TableOk, Frames;
    var t := FlushList(s, wb, ups);
    FlushedStates(s, wb, ups);
    StillLinked(s, t, wb);
    forall free', wb'
      ensures !Tidy(t, free', wb')
    {
      if Linked(t.metaframes, t.writeback, wb') {
        LinkedIsUnique(t.metaframes, t.writeback, wb, wb');
        assert wb'[i] in wb';
      }
    }
  }

  lemma StillLinked(s: Pool, t: Pool, list: seq<nat>)
    requires Linked(s.metaframes, s.writeback, list) && t.writeback == s.writeback
    requires |t.metaframes| == |s.metaframes|
    requires forall f | 0 <= f < |s.metaframes| :: t.metaframes[f].next == s.metaframes[f].next
    ensures Linked(t.metaframes, t.writeback, list)
  {
  }

  /** Which frames the loop cleans. */
  lemma {:induction false} FlushedStates(s: Pool, list: seq<nat>, ups: seq<bool>)
    requires Frames(s, list) && OnDisk(s, list)
    ensures forall i | 0 <= i < |list| && Up(ups, i) :: FlushList(s, list, ups).metaframes[list[i]].state == Unpinned
  {
    if list != [] {
      var init, f := list[..|list| - 1], list[|list| - 1];
      FlushedStates(s, init, ups);
      hide Put, Writable;
      if Up(ups, |init|) {
        WrittenOne(FlushList(s, init, ups), f);
      }
    }
  }

  lemma {:induction false} NothingFlushed(s: Pool, list: seq<nat>, ups: seq<bool>)
    requires Frames(s, list) && forall i | 0 <= i < |list| :: !Up(ups, i)
    ensures FlushList(s, list, ups) == s
  {
    if list != [] {
      NothingFlushed(s, list[..|list| - 1], ups);
      hide WriteAt;
    }
  }

  /** buff_flush_all answers STATUS_OK whatever put_page answers.  Of the frames that waited,
      exactly those whose write failed still wait, so everything its comment promises is on disk
      exactly if every write went through. */
  lemma FlushExact(y: System, ups: seq<bool>)
    requires Sound(y)
    ensures Frames(y.pool, Writeback(y.pool))
    ensures var wb := Writeback(y.pool); var r := Flush(y.pool, wb, ups);
      && |r.metaframes| == |y.pool.metaframes|
      && (forall i | 0 <= i < |wb| :: r.metaframes[wb[i]].state == UnpinnedDirty <==> !Up(ups, i))
      && (r.writeback == None <==> forall i | 0 <= i < |wb| :: Up(ups, i))
  {
    hide Sound, Tidy, Pointers, FlushList, ReclaimList, OnDisk, Writeback, FreeList, NewFree, NewWriteback;
    var s, wb := y.pool, Writeback(y.pool);
    WritebackOnDisk(y);
    TidySound(y);
    SoundPointers(y);
    FlushTidy(s, FreeList(s), wb, ups);
    FlushedStates(s, wb, ups);
    UnwrittenStay(s, wb, ups);
    WaitingStates(s);
    WaitersLeft(FlushList(s, wb, ups).metaframes, wb);
    WritebackIsNull(Flush(s, wb, ups), NewFree(FlushList(s, wb, ups).metaframes, wb, FreeList(s)),
      NewWriteback(FlushList(s, wb, ups).metaframes, wb));
  }

  lemma TidySound(y: System)
    requires Sound(y)
    ensures Tidy(y.pool, FreeList(y.pool), Writeback(y.pool)) && NoDup(Writeback(y.pool))
  {
  }

  lemma WaitersLeft(metas: seq<MetaFrame>, list: seq<nat>)
    requires forall i | 0 <= i < |list| :: list[i] < |metas|
    ensures NewWriteback(metas, list) == [] <==> forall i | 0 <= i < |list| :: metas[list[i]].state == Unpinned
  {
    var l := NewWriteback(metas, list);
    hide NewWriteback;
    assert forall i | 0 <= i < |list| :: list[i] in list;
    assert l != [] ==> l[0] in l;
  }

  /** A frame whose write fails stays as it was. */
  lemma {:induction false} UnwrittenStay(s: Pool, list: seq<nat>, ups: seq<bool>)
    requires Pointers(s) && Frames(s, list) && NoDup(list)
    ensures forall i | 0 <= i < |list| && !Up(ups, i) ::
      FlushList(s, list, ups).metaframes[list[i]] == s.metaframes[list[i]]
  {
    hide Put, NoDup, Pointers;
    if list != [] {
      var init, f := list[..|list| - 1], list[|list| - 1];
      InitNoDup(list);
      UnwrittenStay(s, init, ups);
      FlushElsewhere(s, init, ups);
      var t := FlushList(s, init, ups);
      PutRefused(t.file, t.buffer[f], t.metaframes[f].index);
      assert forall i | 0 <= i < |init| :: list[i] == init[i] && init[i] in init;
    }
  }

  lemma PutRefused(f: File, src: Page, index: int)
    ensures Put(f, src, index, 0).status != Ok
  {
  }

  // ----- buff_mark_page -----

  /** Some pool in which the frame f has the state st, and nothing else is different. */
  function WithState(s: Pool, f: nat, st: FrameState): Pool
    requires f < |s.metaframes|
  {
    s.(metaframes := s.metaframes[f := s.metaframes[f].(state := st)])
  }

  /** The comment at buffer_manager.c:328-329 says that marking works in all states but
      FS_UNPINNED.  The code refuses FS_UNPINNED_DIRTY as well.  That is as well: marking a
      frame keeps the lists and the table in order exactly in the states in which the code
      marks it. */
  lemma MarkExact(s: Pool, free: seq<nat>, wb: seq<nat>, f: nat)
    requires Tidy(s, free, wb) && f < |s.metaframes|
    ensures Mark(s, f).status == Ok <==> InOrder(WithState(s, f, PinnedDirty))
    ensures Mark(s, f).pool == if Mark(s, f).status == Ok then WithState(s, f, PinnedDirty) else s
  {
    hide InOrder, Tidy;
    match s.metaframes[f].state {
      case Pinned => MarkInOrder(s, free, wb, f);
      case PinnedDirty => MarkInOrder(s, free, wb, f);
      case _ => MarkOnList(s, free, wb, f);
    }
  }

  lemma MarkInOrder(s: Pool, free: seq<nat>, wb: seq<nat>, f: nat)
    requires Tidy(s, free, wb) && f < |s.metaframes| && IsPinned(s.metaframes[f])
    ensures InOrder(WithState(s, f, PinnedDirty))
    ensures s.metaframes[f].state == PinnedDirty ==> WithState(s, f, PinnedDirty) == s
  {
    hide Tidy;
    RepinTidy(s, free, wb, f, PinnedDirty);
  }

  lemma MarkOnList(s: Pool, free: seq<nat>, wb: seq<nat>, f: nat)
    requires Tidy(s, free, wb) && f < |s.metaframes| && !IsPinned(s.metaframes[f])
    ensures !InOrder(WithState(s, f, PinnedDirty))
  {
    hide TableOk;
    var r := WithState(s, f, PinnedDirty);
    forall free', wb'
      ensures !Tidy(r, free', wb')
    {
      if Tidy(r, free', wb') {
        LinkedKeep(s.metaframes, s.freelist, free, f, r.metaframes[f]);
        LinkedKeep(s.metaframes, s.writeback, wb, f, r.metaframes[f]);
        LinkedIsUnique(r.metaframes, s.freelist, free, free');
        LinkedIsUnique(r.metaframes, s.writeback, wb, wb');
      }
    }
  }

  // ----- buff_free_frame -----

  /** Up to the place of f, a list that reads the same pointers except f's is the old one. */
  lemma {:induction false} FollowsOld(metas: seq<MetaFrame>, metas': seq<MetaFrame>, link: Option<nat>,
                                      l: seq<nat>, l': seq<nat>, k: nat, j: nat)
    requires Linked(metas, link, l) && Linked(metas', link, l') && NoDup(l)
    requires j <= k < |l| && |metas'| == |metas|
    requires forall g | 0 <= g < |metas| && g != l[k] :: metas'[g].next == metas[g].next
    ensures j < |l'| && l'[j] == l[j]
  {
    if j > 0 {
      FollowsOld(metas, metas', link, l, l', k, j - 1);
      assert metas[l[j - 1]].next == After(l, j - 1) == Some(l[j]);
    }
  }

  /** buff_free_frame fakes the state of whatever frame it is given.  On a frame that is not
      pinned that puts a frame on the free list twice, or leaves a clean one on the writeback
      list: the lists stay in order exactly if the frame was pinned. */
  lemma FreeFrameExact(s: Pool, free: seq<nat>, wb: seq<nat>, f: nat, io: nat)
    requires Tidy(s, free, wb) && f < |s.metaframes|
    ensures InOrder(FreeFrame(s, f, io).pool) <==> IsPinned(s.metaframes[f])
  {
    match s.metaframes[f].state {
      case Unpinned => FreeFrameOnFree(s, free, wb, f, io);
      case UnpinnedDirty => FreeFrameOnWaiting(s, free, wb, f, io);
      case _ => FreeFrameOnPinned(s, free, wb, f, io);
    }
  }

  lemma FreeFrameOnPinned(s: Pool, free: seq<nat>, wb: seq<nat>, f: nat, io: nat)
    requires Tidy(s, free, wb) && f < |s.metaframes| && IsPinned(s.metaframes[f])
    ensures Tidy(FreeFrame(s, f, io).pool, [f] + free, wb)
  {
    var faked := s.(metaframes := s.metaframes[f := s.metaframes[f].(state := Pinned)]);
    RepinTidy(s, free, wb, f, Pinned);
    UnpinTidy(faked, free, wb, f);
    hide Free, Linked, Holds, TableOk;
    AnyStore(Released(s, f), FreeFrame(s, f, io).pool.file, [f] + free, wb);
  }

  lemma AnyStore(s: Pool, file: File, free: seq<nat>, wb: seq<nat>)
    requires Tidy(s, free, wb)
    ensures Tidy(s.(file := file), free, wb)
  {
  }

  lemma FreeFrameOnFree(s: Pool, free: seq<nat>, wb: seq<nat>, f: nat, io: nat)
    requires Tidy(s, free, wb) && f < |s.metaframes| && s.metaframes[f].state == Unpinned
    ensures !InOrder(FreeFrame(s, f, io).pool)
  {
    hide Free, TableOk;
    var r := FreeFrame(s, f, io).pool;
    var k :| 0 <= k < |free| && free[k] == f;
    forall free', wb'
      ensures !Tidy(r, free', wb')
    {
      if Linked(r.metaframes, r.freelist, free') {
        TwiceFree(s, r, free, free', k);
      }
    }
  }

  lemma FreeFrameOnWaiting(s: Pool, free: seq<nat>, wb: seq<nat>, f: nat, io: nat)
    requires Tidy(s, free, wb) && f < |s.metaframes| && s.metaframes[f].state == UnpinnedDirty
    ensures !InOrder(FreeFrame(s, f, io).pool)
  {
    hide Free, TableOk;
    var r := FreeFrame(s, f, io).pool;
    var k :| 0 <= k < |wb| && wb[k] == f;
    forall free', wb'
      ensures !Tidy(r, free', wb')
    {
      if Linked(r.metaframes, r.writeback, wb') {
        FollowsOld(s.metaframes, r.metaframes, s.writeback, wb, wb', k, k);
        assert wb'[k] in wb';
      }
    }
  }

  lemma TwiceFree(s: Pool, r: Pool, free: seq<nat>, free': seq<nat>, k: nat)
    requires Linked(s.metaframes, s.freelist, free) && NoDup(free) && k < |free|
    requires Linked(r.metaframes, r.freelist, free') && r.freelist == Some(free[k])
    requires r.metaframes == s.metaframes[free[k] := s.metaframes[free[k]].(next := s.freelist)]
    ensures !NoDup(free')
  {
    var rest := free'[1..];
    assert r.metaframes[free'[0]].next == After(free', 0);
    assert Linked(r.metaframes, s.freelist, rest);
    FollowsOld(s.metaframes, r.metaframes, s.freelist, free, rest, k, k);
    assert free'[0] == free'[k + 1];
  }

  // ----- what pages hold -----

  /** Unpinning a frame that is not marked dirty keeps the content of its page exactly if the
      frame still equals the page on disk. */
  lemma UnmarkedUnpinExact(y: System, f: nat)
    requires Sound(y) && f < |y.pool.metaframes| && y.pool.metaframes[f].state == Pinned
    requires |y.pool.buffer| == |y.pool.metaframes|
    ensures Sound(y.(pool := Unpin(y.pool, f).pool))
      <==> y.pool.buffer[f] == PageAt(y.pool.file, y.pool.metaframes[f].index)
  {
    if y.pool.buffer[f] == PageAt(y.pool.file, y.pool.metaframes[f].index) {
      UnpinSound(y, f);
    } else {
      HeldShows(y, f);
      UnmarkedUnpinLoses(y, f);
    }
  }

  lemma UnmarkedUnpinLoses(y: System, f: nat)
    requires Sound(y) && Held(y.pool, f) && y.pool.metaframes[f].state == Pinned
    requires |y.pool.buffer| == |y.pool.metaframes|
    requires y.pool.buffer[f] != PageAt(y.pool.file, y.pool.metaframes[f].index)
    ensures !Sound(y.(pool := Unpin(y.pool, f).pool))
  {
    var p, r := y.pool.metaframes[f].index, Unpin(y.pool, f).pool;
    hide Tidy, Chain, PageAt;
    assert p in y.model.live && y.content[p] == y.pool.buffer[f] != y.model.live[p];
    assert forall g | Held(r, g) :: Held(y.pool, g) && g != f && r.metaframes[g].index == y.pool.metaframes[g].index;
    assert forall g | Held(r, g) :: r.metaframes[g].index != p;
  }

  /** A dirty unpin drops the table entry, so nothing stops the page from being pinned again
      before it is written.  Pinning a live page keeps things sound exactly if it does not wait
      on the writeback list; if it does, the new frame shows the disk's stale bytes. */
  lemma RepinExact(y: System, index: int, io: nat)
    requires Sound(y) && Pointers(y.pool) && index in y.model.live && PinMoves(y.pool, index, io)
    ensures Sound(y.(pool := Pin(y.pool, index, io).pool))
      <==> forall f | f in Writeback(y.pool) :: f < |y.pool.metaframes| ==> y.pool.metaframes[f].index != index
    ensures var r := Pin(y.pool, index, io);
      r.frame.Some? && r.frame.value < |r.pool.buffer| && r.pool.buffer[r.frame.value] == PageAt(y.pool.file, index)
  {
    hide Sound, Pin, Pointers, PinMoves, Writeback, PageAt;
    var s := y.pool;
    RepinShowsDisk(y, index, io);
    if f :| f in Writeback(s) && f < |s.metaframes| && s.metaframes[f].index == index {
      HeldTwice(y, index, io, f);
    } else {
      PinSound(y, index, io);
    }
  }

  lemma RepinShowsDisk(y: System, index: int, io: nat)
    requires Sound(y) && Pointers(y.pool) && index in y.model.live && PinMoves(y.pool, index, io)
    ensures var r := Pin(y.pool, index, io);
      r.frame.Some? && r.frame.value < |r.pool.buffer| && r.pool.buffer[r.frame.value] == PageAt(y.pool.file, index)
  {
    hide Tidy, Owned, Shows, PageAt, Get;
    GetMeans(y.pool.file, y.model, y.pool.buffer[y.pool.freelist.value], index, io);
  }

  /** The page waits in one frame and is pinned in another. */
  lemma HeldTwice(y: System, index: int, io: nat, f: nat)
    requires Sound(y) && Pointers(y.pool) && PinMoves(y.pool, index, io)
    requires f in Writeback(y.pool) && f < |y.pool.metaframes| && y.pool.metaframes[f].index == index
    ensures !Sound(y.(pool := Pin(y.pool, index, io).pool))
  {
    hide Means, Shows, TableOk, Linked, Chain, Get;
    var s, r := y.pool, Pin(y.pool, index, io).pool;
    HeadIsUnpinned(s, FreeList(s), Writeback(s));
    assert s.metaframes[f].state == UnpinnedDirty;
    assert Held(r, f) && Held(r, s.freelist.value) && f != s.freelist.value;
  }

  /** buff_alloc_frame takes its page before it looks for a frame and before it reads the page.
      It succeeds exactly if alloc_page does, a frame is free and the read goes through; if only
      alloc_page did, the page is live, nobody was told of it, and no frame holds it. */
  lemma AllocFrameExact(y: System, io: nat, pinIo: nat)
    requires Sound(y) && Pointers(y.pool) && AllocOk(y.model, None, io)
    ensures var r := AllocFrame(y.pool, io, pinIo); var o := AllocModel(y.model, None, io);
      && (r.status == Ok <==> o.status == Ok && y.pool.freelist.Some? && 1 <= pinIo)
      && (r.status != Ok ==> r.page == ERR_SET && r.frame == None)
      && Means(r.pool.file, o.model)
      && (if o.status == Ok then o.index !in y.model.live && o.index in o.model.live else o.model == y.model)
      && (r.status != Ok && o.status == Ok ==>
            && r.status == (if y.pool.freelist == None then NoFreeFrames else BadRead)
            && o.index in o.model.live
            && forall f | Held(r.pool, f) :: r.pool.metaframes[f].index != o.index)
  {
    AllocSound(y, io);
    NewPage(y.pool.file, y.model, io);
    var o := AllocModel(y.model, None, io);
    var z := System(y.pool.(file := Alloc(y.pool.file, None, io).file), o.model, AllocContent(y, io));
    assert Means(z.pool.file, z.model);
    PinnedAreLive(y);
    hide Sound, Means, Alloc, AllocModel, AllocContent, Pin;
    if o.status == Ok {
      NotInTable(y, o.index);
      PinExact(z, o.index, pinIo);
      PinKeepsFile(z.pool, o.index, pinIo);
    }
  }

  lemma NotInTable(y: System, index: int)
    requires Sound(y) && index !in y.model.live
    ensures index !in y.pool.table
  {
    if index in y.pool.table {
      TableFrame(y, index);
      PinnedAreLive(y);
    }
    hide Sound;
  }

  lemma PinKeepsFile(s: Pool, index: int, io: nat)
    requires Pointers(s)
    ensures Pin(s, index, io).pool.file == s.file
  {
  }

  // ----- the failing states are reached -----

  /** Three frames over any store with two live pages: buff_pin as written gives both pages
      frame 0. */
  lemma PinTwiceHappens(frames: nat, f: File, m: Model, p: nat, q: nat)
    requires Means(f, m) && p in m.live && q in m.live && p != q && 3 <= frames
    ensures var first := PinAsWritten(Created(frames, f), p, 1);
      && first.Finished? && first.result.status == Ok
      && var second := PinAsWritten(first.result.pool, q, 1);
      && second.Finished? && second.result.status == Ok
      && first.result.frame == second.result.frame == Some(0)
      && second.result.pool.metaframes[0].index == q && second.result.pool.table[p] == 0
  {
    hide Get, Chained, Contents, MetaIs;
    assert p != 0 && q != 0;
    GetMeans(f, m, BLANK, p, 1);
    GetMeans(f, m, m.live[p], q, 1);
    PinTwiceAsWritten(Created(frames, f), p, q, 1, 1);
  }

  /** Any created pool: buff_free_frame of a frame that nobody pinned. */
  lemma FreeFrameHappens(frames: nat, file: File, io: nat)
    requires 0 < frames
    ensures InOrder(Created(frames, file)) && !InOrder(FreeFrame(Created(frames, file), 0, io).pool)
  {
    CreatedIsTidy(frames, file);
    FreeFrameExact(Created(frames, file), UpTo(frames), [], 0, io);
  }

  /** One frame over any store with a live page: the page is pinned, and pinning it again is
      refused. */
  lemma NoFrameHappens(f: File, m: Model, p: nat)
    requires Means(f, m) && p in m.live
    ensures var s := Pin(Created(1, f), p, 1).pool;
      && Pin(Created(1, f), p, 1).status == Ok && p in s.table
      && Pin(s, p, 1).status == NoFreeFrames && s.freelist == None
  {
    hide Get;
    GetMeans(f, m, BLANK, p, 1);
    InStore(f, m, p);
    assert p != 0;
  }

  /** The pool of RepinHappens after its first pin ... */
  function OnePinned(f: File, p: nat, d: Page): Pool {
    Pool([d, BLANK], [MetaFrame(Pinned, p, Some(1)), MetaFrame(Unpinned, 0, None)],
         Some(1), None, map[p := 0], f)
  }

  /** ... and when its page waits to be written. */
  function OneWaiting(f: File, p: nat, d: Page): Pool {
    Pool([d, BLANK], [MetaFrame(UnpinnedDirty, p, None), MetaFrame(Unpinned, 0, None)],
         Some(1), Some(0), map[], f)
  }

  lemma FirstPin(f: File, m: Model, p: nat)
    requires Means(f, m) && p in m.live
    ensures Pin(Created(2, f), p, 1) == PinResult(OnePinned(f, p, m.live[p]), Ok, Some(0))
    ensures PoolOpOk(Created(2, f), m, PinOp(p, 1))
  {
    hide Get, Chained, Contents, MetaIs, AllocOk, PageAt;
    assert p != 0;
    GetMeans(f, m, BLANK, p, 1);
  }

  lemma ThenWaits(f: File, p: nat, d: Page, d': Page)
    ensures Unpin(Mark(WriteFrame(OnePinned(f, p, d), 0, d'), 0).pool, 0).pool == OneWaiting(f, p, d')
  {
    assert map[p := 0] - {p} == map[];
  }

  lemma SecondPin(f: File, m: Model, p: nat, d: Page)
    requires Means(f, m) && p in m.live
    ensures Pointers(OneWaiting(f, p, d)) && PinMoves(OneWaiting(f, p, d), p, 1)
    ensures var r := Pin(OneWaiting(f, p, d), p, 1);
      r.status == Ok && r.frame == Some(1) && r.pool.buffer[1] == m.live[p]
  {
    hide Get, Chained, Contents, MetaIs;
    assert p != 0;
    GetMeans(f, m, BLANK, p, 1);
  }

  lemma FrameWaits(f: File, p: nat, d: Page)
    ensures var s := OneWaiting(f, p, d);
      0 in Writeback(s) && 0 < |s.metaframes| && s.metaframes[0].index == p
  {
    var metas := OneWaiting(f, p, d).metaframes;
    assert Chain(metas, None, 1) == [];
  }

  lemma WaitingIsSound(f: File, m: Model, p: nat, d: Page)
    requires Means(f, m) && p in m.live
    ensures Sound(System(OneWaiting(f, p, d), m, m.live[p := d]))
  {
    hide Sound, PoolOpOk, PoolStep, Means, Pin, WriteFrame, Mark, Unpin, OneWaiting;
    var y0 := System(Created(2, f), m, m.live);
    CreatedIsSound(2, f, m);
    FirstPin(f, m, p);
    var y1 := PinCall(y0, p, 1);
    Changed(y1, 0, d);
    var y2 := WriteCall(y1, 0, d);
    var y3 := MarkCall(y2, 0);
    var y4 := UnpinCall(y3, 0);
    ThenWaits(f, p, m.live[p], d);
  }

  /** Two frames over any store with a live page: pinned, written, marked and unpinned, the page
      is pinned again before the flush, and shows what it held before. */
  lemma RepinHappens(f: File, m: Model, p: nat, d: Page)
    requires Means(f, m) && p in m.live
    ensures Pin(Created(2, f), p, 1) == PinResult(OnePinned(f, p, m.live[p]), Ok, Some(0))
    ensures Unpin(Mark(WriteFrame(OnePinned(f, p, m.live[p]), 0, d), 0).pool, 0).pool == OneWaiting(f, p, d)
    ensures Sound(System(OneWaiting(f, p, d), m, m.live[p := d])) && Pointers(OneWaiting(f, p, d))
    ensures var r := Pin(OneWaiting(f, p, d), p, 1);
      && r.status == Ok && r.frame == Some(1) && r.pool.buffer[1] == m.live[p]
      && !Sound(System(r.pool, m, m.live[p := d]))
  {
    hide Sound, Means, Pin, WriteFrame, Mark, Unpin, Writeback, Pointers, PinMoves;
    FirstPin(f, m, p);
    ThenWaits(f, p, m.live[p], d);
    WaitingIsSound(f, m, p, d);
    SecondPin(f, m, p, d);
    FrameWaits(f, p, d);
    RepinExact(System(OneWaiting(f, p, d), m, m.live[p := d]), p, 1);
  }

  /** That pool once it has been flushed as written: the frame is clean and still waits ... */
  function OneCleaned(file: File, p: nat, d: Page): Pool {
    Pool([d, BLANK], [MetaFrame(Unpinned, p, None), MetaFrame(Unpinned, 0, None)],
         Some(1), Some(0), map[], file)
  }

  /** ... and once its page has been pinned in the other frame, and freed. */
  function OneFreed(file: File, p: nat, d: Page): Pool {
    Pool([d, d], [MetaFrame(Unpinned, p, None), MetaFrame(Unpinned, p, None)],
         Some(1), Some(0), map[], file)
  }

  lemma FlushOnce(f: File, m: Model, p: nat, d: Page)
    requires Means(f, m) && p in m.live
    ensures FlushList(OneWaiting(f, p, d), [0], []) == OneCleaned(Put(f, d, p, 1).file, p, d)
  {
    hide Put, Chained, Contents, MetaIs;
    PutMeans(f, m, d, p, 1);
    assert [0][..0] == [];
    assert FlushList(OneWaiting(f, p, d), [], []) == OneWaiting(f, p, d);
  }

  lemma PinAndFree(f: File, m: Model, p: nat, d: Page, io: nat)
    requires Means(f, m) && p in m.live && m.live[p] == d
    ensures Pointers(OneCleaned(f, p, d))
    ensures var r := Pin(OneCleaned(f, p, d), p, 1);
      && r.status == Ok && r.frame == Some(1) && |r.pool.metaframes| == 2
      && FreeFrame(r.pool, 1, io) == PoolResult(OneFreed(Free(f, p, io).file, p, d), Free(f, p, io).status)
  {
    hide Get, Free, Chained, Contents, MetaIs;
    assert p != 0;
    GetMeans(f, m, BLANK, p, 1);
    assert map[p := 1] - {p} == map[];
  }

  lemma FlushAgain(file: File, p: nat, d: Page)
    ensures FlushList(OneFreed(file, p, d), [0], []).file == Put(file, d, p, 1).file
    ensures Linked(OneFreed(file, p, d).metaframes, OneFreed(file, p, d).writeback, [0])
  {
    hide Put;
    assert [0][..0] == [];
    assert FlushList(OneFreed(file, p, d), [], []) == OneFreed(file, p, d);
  }

  /** A write-back that lands on the last free page. */
  lemma PutOnTail(f: File, m: Model, p: nat, d: Page)
    requires Means(f, m) && m.queue != [] && m.queue[|m.queue| - 1] == p
    ensures var g := Put(f, d, p, 1).file;
      && PageAt(g, p) == d
      && (d != FreeImage(EMPTY_LIST) ==> forall m': Model | m'.loose == {} :: !Means(g, m'))
  {
    hide PageAt, Field, FreeImage, Chained, Contents, NoDup, WriteAt;
    assert p in m.queue;
    InStore(f, m, p);
    WritePage(f, p, d);
    var g := Put(f, d, p, 1).file;
    if d != FreeImage(EMPTY_LIST) {
      forall m': Model | m'.loose == {}
        ensures !Means(g, m')
      {
        TailMustEnd(g, m', p);
      }
    }
  }

  /** What comes of leaving cleaned frames on the writeback list, from a created pool of two
      frames with only buff_pin repaired: page p is pinned, written, marked, unpinned and flushed,
      then pinned again, in the other frame, and freed.  No frame speaks for it any more, but the
      next flush writes the first frame over it, and with it over its place in the free list. */
  lemma FlushTwiceHappens(f: File, m: Model, p: nat, d: Page)
    requires Means(f, m) && m.loose == {} && p in m.live
    ensures Pin(Created(2, f), p, 1) == PinResult(OnePinned(f, p, m.live[p]), Ok, Some(0))
    ensures Unpin(Mark(WriteFrame(OnePinned(f, p, m.live[p]), 0, d), 0).pool, 0).pool == OneWaiting(f, p, d)
    ensures var s1 := FlushList(OneWaiting(f, p, d), [0], []);
      Pointers(s1) && Pin(s1, p, 1).status == Ok && Pin(s1, p, 1).frame == Some(1)
    ensures var s2 := Pin(FlushList(OneWaiting(f, p, d), [0], []), p, 1).pool;
      && 1 < |s2.metaframes| && FreeFrame(s2, 1, ALL_IO).status == Ok
      && var s3 := FreeFrame(s2, 1, ALL_IO).pool;
      && (exists m': Model :: Means(s3.file, m') && m'.loose == {} && p in m'.queue)
      && (forall g :: !Held(s3, g))
      && Linked(s3.metaframes, s3.writeback, [0]) && Frames(s3, [0])
      && PageAt(FlushList(s3, [0], []).file, p) == d
      && (d != FreeImage(EMPTY_LIST) ==>
            forall m': Model | m'.loose == {} :: !Means(FlushList(s3, [0], []).file, m'))
  {
    hide Means, Pin, WriteFrame, Mark, Unpin, FlushList, FreeFrame, Put, Free, PageAt, FreeImage;
    hide OneWaiting, OneCleaned;
    FirstPin(f, m, p);
    ThenWaits(f, p, m.live[p], d);
    FlushOnce(f, m, p, d);
    PutMeans(f, m, d, p, 1);
    var f1, m1 := Put(f, d, p, 1).file, m.(live := m.live[p := d]);
    PinAndFree(f1, m1, p, d, ALL_IO);
    FreeMeans(f1, m1, p, ALL_IO);
    var f2, m2 := Free(f1, p, ALL_IO).file, Pushed(m1, p);
    assert m2.loose == {} && p in m2.queue && m2.queue[|m2.queue| - 1] == p;
    FlushAgain(f2, p, d);
    PutOnTail(f2, m2, p, d);
  }
}
