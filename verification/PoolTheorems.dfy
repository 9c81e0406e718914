/** What whole runs of the buffer manager over a store guarantee. */
module PoolTheorems {
  import opened Wrappers
  import opened Words
  import opened Files
  import opened Store
  import opened StoreInvariant
  import opened Pool
  import opened PoolInvariant
  import opened PoolRuns

  /** A pool just created, with any frames at all, over a store. */
  lemma CreatedIsSound(frames: nat, file: File, m: Model)
    requires Means(file, m) && 0 < frames
    ensures Sound(System(Created(frames, file), m, m.live))
  {
    CreatedIsTidy(frames, file);
    Walked(Created(frames, file), UpTo(frames), []);
    hide Means, Tidy, Chain;
  }

  lemma SoundPointers(y: System)
    requires Sound(y)
    ensures Pointers(y.pool)
  {
  }

  lemma PinnedAreLive(y: System)
    requires Sound(y)
    ensures forall f | Held(y.pool, f) :: y.pool.metaframes[f].index in y.model.live
  {
  }

  lemma FlushDefined(y: System)
    requires Sound(y)
    ensures Frames(y.pool, Writeback(y.pool))
    ensures forall i | 0 <= i < |Writeback(y.pool)| :: y.pool.metaframes[Writeback(y.pool)[i]].index in y.model.live
  {
    FlushSound(y, []);
  }

  ghost function PagePinned(y: System, index: int, io: nat): System
    requires Sound(y)
  {
    SoundPointers(y);
    y.(pool := Pin(y.pool, index, io).pool)
  }

  function Written(y: System, f: nat, d: Page): System
    requires f < |y.pool.metaframes| && f < |y.pool.buffer| && y.pool.metaframes[f].index in y.model.live
  {
    System(WriteFrame(y.pool, f, d), y.model, y.content[y.pool.metaframes[f].index := d])
  }

  ghost function FrameAllocated(y: System, io: nat, pinIo: nat): System
    requires Sound(y)
  {
    SoundPointers(y);
    System(AllocFrame(y.pool, io, pinIo).pool, AllocModel(y.model, None, io).model, AllocContent(y, io))
  }

  function FrameFreed(y: System, f: nat, io: nat): System
    requires f < |y.pool.metaframes| && y.pool.metaframes[f].index in y.model.live
  {
    var p := y.pool.metaframes[f].index;
    System(FreeFrame(y.pool, f, io).pool, FreeModel(y.model, p, io).model, FreeContent(y, p, io))
  }

  ghost function Flushed(y: System, ups: seq<bool>): System
    requires Sound(y)
  {
    FlushDefined(y);
    FlushSystem(y, ups)
  }

  /** One call: the pool moves as the code says, the meaning of the store as fileio.c says,
      and the content of pages only where a client writes, allocates or frees. */
  ghost function PoolStep(y: System, op: PoolOp): System
    requires Sound(y) && PoolOpOk(y.pool, y.model, op)
  {
    match op
    case PinOp(index, io) => PagePinned(y, index, io)
    case UnpinOp(f) => y.(pool := Unpin(y.pool, f).pool)
    case MarkOp(f) => y.(pool := Mark(y.pool, f).pool)
    case WriteOp(f, d) => Written(y, f, d)
    case AllocFrameOp(io, pinIo) => FrameAllocated(y, io, pinIo)
    case FreeFrameOp(f, io) => FrameFreed(y, f, io)
    case FlushOp(ups) => Flushed(y, ups)
  }

  lemma PoolStepSound(y: System, op: PoolOp)
    requires Sound(y) && PoolOpOk(y.pool, y.model, op)
    ensures Sound(PoolStep(y, op))
  {
    hide Sound, Unpin, Mark, Pin, AllocFrame, FreeFrame, FlushSystem, AllocModel, AllocContent, FreeModel, FreeContent;
    match op {
      case PinOp(index, io) => PinSound(y, index, io);
      case UnpinOp(f) => UnpinSound(y, f);
      case MarkOp(f) => MarkSound(y, f);
      case WriteOp(f, d) => WriteSound(y, f, d);
      case AllocFrameOp(io, pinIo) => AllocFrameSound(y, io, pinIo);
      case FreeFrameOp(f, io) => FreeFrameSound(y, f, io);
      case FlushOp(ups) => FlushSound(y, ups);
    }
  }

  ghost predicate PoolRunOk(y: System, ops: seq<PoolOp>)
    requires Sound(y)
    decreases |ops|, 0
  {
    ops == [] ||
    (var init := ops[..|ops| - 1];
     PoolRunOk(y, init) && PoolOpOk(PoolRun(y, init).pool, PoolRun(y, init).model, ops[|ops| - 1]))
  }

  ghost function PoolRun(y: System, ops: seq<PoolOp>): (z: System)
    requires Sound(y) && PoolRunOk(y, ops)
    ensures Sound(z)
    decreases |ops|, 1
  {
    if ops == [] then y
    else
      var before := PoolRun(y, ops[..|ops| - 1]);
      PoolStepSound(before, ops[|ops| - 1]);
      PoolStep(before, ops[|ops| - 1])
  }

  // ----- no write-back ever lands on a free page -----

  lemma PutElsewhere(f: File, src: Page, index: int, io: nat, q: nat)
    requires q != index && (q + 1) * PAGESIZE <= |f|
    ensures var g := Put(f, src, index, io).file;
      |f| <= |g| && PageAt(g, q) == PageAt(f, q)
  {
    hide WriteAt, PageAt;
    if 0 < index && Writable(IndexToOffset(index)) {
      WritePage(f, index, src);
    }
  }

  lemma {:induction false} FlushElsewhereOnDisk(s: Pool, list: seq<nat>, ups: seq<bool>, q: nat)
    requires Frames(s, list) && (q + 1) * PAGESIZE <= |s.file|
    requires forall i | 0 <= i < |list| :: s.metaframes[list[i]].index != q
    ensures var t := FlushList(s, list, ups);
      |s.file| <= |t.file| && PageAt(t.file, q) == PageAt(s.file, q)
  {
    if list != [] {
      hide Put, PageAt;
      var init, f := list[..|list| - 1], list[|list| - 1];
      FlushElsewhereOnDisk(s, init, ups, q);
      var t := FlushList(s, init, ups);
      PutElsewhere(t.file, t.buffer[f], t.metaframes[f].index, Io(Up(ups, |list| - 1)), q);
    }
  }

  lemma {:induction false} FlushModelKeepsQueue(s: Pool, m: Model, list: seq<nat>, ups: seq<bool>)
    requires Frames(s, list) && forall i | 0 <= i < |list| :: s.metaframes[list[i]].index in m.live
    ensures var m' := FlushModel(s, m, list, ups);
      m'.queue == m.queue && m'.size == m.size && m'.loose == m.loose
  {
    if list != [] {
      FlushModelKeepsQueue(s, m, list[..|list| - 1], ups);
    }
  }

  /** Over any run that keeps its obligations, whatever reads and writes fail: the bytes on
      disk still mean a store; a frame that is pinned or waits to be written holds a live
      page, that no other such frame holds and that is not on the free list; and a flush from
      there, whichever of its writes fail, leaves the metadata page and every free page byte
      for byte, so that the free list is the same afterwards. */
  lemma CrossLayerSafety(y: System, ops: seq<PoolOp>, ups: seq<bool>)
    requires Sound(y) && PoolRunOk(y, ops)
    ensures var z := PoolRun(y, ops); var s := z.pool;
      && Means(s.file, z.model)
      && (forall f | Held(s, f) :: s.metaframes[f].index in z.model.live && s.metaframes[f].index !in z.model.queue)
      && (forall f, g | Held(s, f) && Held(s, g) && f != g :: s.metaframes[f].index != s.metaframes[g].index)
      && Frames(s, Writeback(s))
      && (forall q | q == 0 || q in z.model.queue ::
            PageAt(Flush(s, Writeback(s), ups).file, q) == PageAt(s.file, q))
      && exists m' :: Means(Flush(s, Writeback(s), ups).file, m')
           && m'.queue == z.model.queue && m'.live.Keys == z.model.live.Keys
           && m'.size == z.model.size && m'.loose == z.model.loose
  {
    var z := PoolRun(y, ops);
    SoundIsSafe(z, ups);
  }

  lemma SoundIsSafe(z: System, ups: seq<bool>)
    requires Sound(z)
    ensures var s := z.pool;
      && Means(s.file, z.model)
      && (forall f | Held(s, f) :: s.metaframes[f].index in z.model.live && s.metaframes[f].index !in z.model.queue)
      && (forall f, g | Held(s, f) && Held(s, g) && f != g :: s.metaframes[f].index != s.metaframes[g].index)
      && Frames(s, Writeback(s))
      && (forall q | q == 0 || q in z.model.queue ::
            PageAt(Flush(s, Writeback(s), ups).file, q) == PageAt(s.file, q))
      && exists m' :: Means(Flush(s, Writeback(s), ups).file, m')
           && m'.queue == z.model.queue && m'.live.Keys == z.model.live.Keys
           && m'.size == z.model.size && m'.loose == z.model.loose
  {
    var s := z.pool;
    FlushSound(z, ups);
    WritebackFrames(s);
    FlushModelKeepsQueue(s, z.model, Writeback(s), ups);
    forall q | q == 0 || q in z.model.queue
      ensures PageAt(Flush(s, Writeback(s), ups).file, q) == PageAt(s.file, q)
    {
      InStore(s.file, z.model, q);
      forall i | 0 <= i < |Writeback(s)|
        ensures s.metaframes[Writeback(s)[i]].index != q
      {
        assert Held(s, Writeback(s)[i]);
      }
      FlushElsewhereOnDisk(s, Writeback(s), ups, q);
    }
    hide PageAt, Tidy, Chain, Flush;
    assert Means(FlushSystem(z, ups).pool.file, FlushSystem(z, ups).model);
  }

  // ----- the pool is invisible -----

  lemma HeldShows(z: System, f: nat)
    requires Sound(z) && Held(z.pool, f)
    ensures |z.pool.buffer| == |z.pool.metaframes|
    ensures var p := z.pool.metaframes[f].index; p in z.content && z.pool.buffer[f] == z.content[p]
    ensures 0 < z.pool.metaframes[f].index && Writable(IndexToOffset(z.pool.metaframes[f].index))
  {
    InStore(z.pool.file, z.model, z.pool.metaframes[f].index);
    hide Chain, Linked, Holds, TableOk;
  }

  lemma TableFrame(y: System, index: int)
    requires Sound(y) && index in y.pool.table
    ensures var f := y.pool.table[index];
      f < |y.pool.metaframes| && IsPinned(y.pool.metaframes[f]) && y.pool.metaframes[f].index == index
  {
    hide Chain, Linked, Holds, Means, Owned;
  }

  /** When buff_pin succeeds on a live page: some frame is free, and the page is in the table
      or can be read.  buffer_manager.c:150-153 asks for a free frame before it looks into the
      table, so a page that is pinned already is refused exactly if no frame is free. */
  lemma PinExact(y: System, index: int, io: nat)
    requires Sound(y) && Pointers(y.pool) && index in y.model.live
    ensures var r := Pin(y.pool, index, io);
      && (r.status == Ok <==> y.pool.freelist.Some? && (index in y.pool.table || 1 <= io))
      && (r.status != Ok ==> r.status == if y.pool.freelist == None then NoFreeFrames else BadRead)
      && (r.status != Ok || index in y.pool.table ==> r.pool == y.pool)
      && (index in y.pool.table && y.pool.freelist.Some? ==>
            r.frame == Some(y.pool.table[index]) && y.pool.table[index] < |y.pool.metaframes|
            && IsPinned(y.pool.metaframes[y.pool.table[index]])
            && y.pool.metaframes[y.pool.table[index]].index == index)
      && (r.status != Ok ==> r.frame == None)
  {
    assert index != METADATA by { InStore(y.pool.file, y.model, index); }
    if index in y.pool.table {
      TableFrame(y, index);
    } else if y.pool.freelist.Some? {
      GetMeans(y.pool.file, y.model, y.pool.buffer[y.pool.freelist.value], index, io);
    }
    hide Sound, Get;
  }

  lemma PinnedFrame(s: Pool, index: int, io: nat)
    requires Pointers(s) && index !in s.table && Pin(s, index, io).status == Ok
    ensures var r := Pin(s, index, io);
      && r.frame == s.freelist && r.frame.Some? && r.frame.value < |r.pool.metaframes| == |s.metaframes|
      && r.pool.metaframes[r.frame.value].state == Pinned && r.pool.metaframes[r.frame.value].index == index
  {
    hide Get;
  }

  lemma PinGivesFrame(y: System, index: int, io: nat)
    requires Sound(y) && Pointers(y.pool) && index in y.model.live
    requires y.pool.freelist.Some? && (index in y.pool.table || 1 <= io)
    ensures var r := Pin(y.pool, index, io);
      && r.status == Ok
      && r.frame.Some? && Held(r.pool, r.frame.value)
      && IsPinned(r.pool.metaframes[r.frame.value])
      && r.pool.metaframes[r.frame.value].index == index
  {
    PinExact(y, index, io);
    if index !in y.pool.table {
      PinnedFrame(y.pool, index, io);
    }
    hide Sound, Pin, Pointers;
  }

  /** What a client reads through a frame that buff_pin gave it is the page's content: the
      last bytes written to it through any frame, flushed or not. */
  lemma PinShowsContent(y: System, index: int, io: nat)
    requires Sound(y) && Pointers(y.pool) && index in y.model.live && PoolOpOk(y.pool, y.model, PinOp(index, io))
    requires y.pool.freelist.Some? && (index in y.pool.table || 1 <= io)
    ensures var r := Pin(y.pool, index, io);
      && r.status == Ok
      && r.frame.Some? && r.frame.value < |r.pool.metaframes| == |r.pool.buffer|
      && IsPinned(r.pool.metaframes[r.frame.value])
      && r.pool.metaframes[r.frame.value].index == index
      && index in y.content && r.pool.buffer[r.frame.value] == y.content[index]
  {
    PinGivesFrame(y, index, io);
    PinSound(y, index, io);
    var r := Pin(y.pool, index, io);
    hide Sound, Pin, PoolOpOk;
    HeldShows(y.(pool := r.pool), r.frame.value);
  }

  lemma WrittenOne(t: Pool, f: nat)
    requires |t.buffer| == |t.metaframes| && f < |t.buffer|
    requires 0 < t.metaframes[f].index && Writable(IndexToOffset(t.metaframes[f].index))
    ensures FlushOne(t, f, true).metaframes[f].state == Unpinned
  {
    hide WriteAt;
  }

  ghost predicate OnDisk(s: Pool, list: seq<nat>)
    requires Frames(s, list)
  {
    forall i | 0 <= i < |list| ::
      0 < s.metaframes[list[i]].index && Writable(IndexToOffset(s.metaframes[list[i]].index))
  }

  /** When every write goes through, the loop cleans every frame it visits. */
  lemma {:induction false} AllWritten(s: Pool, list: seq<nat>)
    requires Frames(s, list) && OnDisk(s, list)
    ensures forall i | 0 <= i < |list| :: FlushList(s, list, []).metaframes[list[i]].state == Unpinned
  {
    if list != [] {
      var init, f := list[..|list| - 1], list[|list| - 1];
      AllWritten(s, init);
      hide Put, Writable;
      WrittenOne(FlushList(s, init, []), f);
    }
  }

  lemma WritebackOnDisk(y: System)
    requires Sound(y)
    ensures Frames(y.pool, Writeback(y.pool)) && OnDisk(y.pool, Writeback(y.pool))
  {
    WritebackFrames(y.pool);
    hide Sound, Chain;
    forall i | 0 <= i < |Writeback(y.pool)|
      ensures var p := y.pool.metaframes[Writeback(y.pool)[i]].index; 0 < p && Writable(IndexToOffset(p))
    {
      HeldShows(y, Writeback(y.pool)[i]);
    }
  }

  lemma Cleaned(s: Pool, free: seq<nat>, wb: seq<nat>)
    requires Tidy(s, free, wb) && Frames(s, wb) && OnDisk(s, wb)
    ensures NewWriteback(FlushList(s, wb, []).metaframes, wb) == []
    ensures forall f | Held(Flush(s, wb, []), f) :: Held(s, f) && IsPinned(s.metaframes[f])
  {
    AllWritten(s, wb);
    FlushStates(s, wb, []);
    var t := FlushList(s, wb, []);
    assert forall f | f in wb :: t.metaframes[f].state == Unpinned;
    assert forall f | 0 <= f < |s.metaframes| && s.metaframes[f].state == UnpinnedDirty :: f in wb;
    NoneLeft(s, t, wb);
    hide Tidy, FlushList, OnDisk, NewWriteback;
  }

  lemma NoneLeft(s: Pool, t: Pool, wb: seq<nat>)
    requires |t.metaframes| == |s.metaframes| && Frames(t, wb)
    requires forall f | f in wb :: t.metaframes[f].state == Unpinned
    requires forall f | 0 <= f < |s.metaframes| && s.metaframes[f].state == UnpinnedDirty :: f in wb
    requires forall f | 0 <= f < |s.metaframes| ::
      t.metaframes[f].state == s.metaframes[f].state || t.metaframes[f].state == Unpinned
    ensures NewWriteback(t.metaframes, wb) == []
    ensures forall f | Held(ReclaimList(t, wb), f) :: Held(s, f) && IsPinned(s.metaframes[f])
  {
    NoMembers(NewWriteback(t.metaframes, wb));
    hide NewWriteback, ReclaimList;
  }

  lemma NoMembers(l: seq<nat>)
    ensures (forall f | f in l :: false) ==> l == []
  {
    assert l != [] ==> l[0] in l;
  }

  lemma NothingWaits(y: System)
    requires Sound(y)
    ensures Frames(y.pool, Writeback(y.pool))
    ensures var r := Flush(y.pool, Writeback(y.pool), []);
      r.writeback == None && forall f | Held(r, f) :: Held(y.pool, f) && IsPinned(y.pool.metaframes[f])
  {
    var s, wb := y.pool, Writeback(y.pool);
    WritebackOnDisk(y);
    FlushTidy(s, FreeList(s), wb, []);
    Cleaned(s, FreeList(s), wb);
    hide Chain, Flush, FlushList, Holds, NewFree, NewWriteback, Held;
  }

  /** After a flush whose writes all go through, nothing waits any more, and the disk holds
      the content of every page that is not pinned. */
  lemma FlushIsDurable(y: System, p: nat)
    requires Sound(y) && p in y.content
    requires forall f | 0 <= f < |y.pool.metaframes| && IsPinned(y.pool.metaframes[f]) ::
      y.pool.metaframes[f].index != p
    ensures Frames(y.pool, Writeback(y.pool))
    ensures var r := Flush(y.pool, Writeback(y.pool), []);
      r.writeback == None && PageAt(r.file, p) == y.content[p]
  {
    var s, wb := y.pool, Writeback(y.pool);
    FlushSound(y, []);
    NothingWaits(y);
    hide Tidy, Chain, Owned, FlushList, ReclaimList, PageAt;
    var z := FlushSystem(y, []);
    FlushIndexes(s, wb, []);
    assert forall f | Held(z.pool, f) :: z.pool.metaframes[f].index == s.metaframes[f].index;
    assert z.model.live[p] == y.content[p];
  }

  lemma FlushIndexes(s: Pool, list: seq<nat>, ups: seq<bool>)
    requires Frames(s, list)
    ensures |Flush(s, list, ups).metaframes| == |s.metaframes|
    ensures forall f | 0 <= f < |s.metaframes| :: Flush(s, list, ups).metaframes[f].index == s.metaframes[f].index
  {
  }

  // ----- what a client does with a frame -----

  /** buff_alloc_frame, when the store has a page to give, a frame is free and the page can be
      read, hands out a page that was not live before, in a pinned frame that shows that page's
      content. */
  lemma AllocFrameGives(y: System, io: nat, pinIo: nat)
    requires Sound(y) && AllocOk(y.model, None, io) && Pointers(y.pool)
    requires AllocModel(y.model, None, io).status == Ok && y.pool.freelist.Some? && 1 <= pinIo
    ensures var r := AllocFrame(y.pool, io, pinIo); var content := AllocContent(y, io);
      && r.status == Ok && r.page == AllocModel(y.model, None, io).index
      && r.page !in y.content && r.page in content
      && r.frame.Some? && r.frame.value < |r.pool.metaframes| == |r.pool.buffer|
      && r.pool.metaframes[r.frame.value].index == r.page
      && IsPinned(r.pool.metaframes[r.frame.value])
      && r.pool.buffer[r.frame.value] == content[r.page]
  {
    AllocSound(y, io);
    var a := Alloc(y.pool.file, None, io);
    var z := System(y.pool.(file := a.file), AllocModel(y.model, None, io).model, AllocContent(y, io));
    assert PoolOpOk(z.pool, z.model, PinOp(a.index, pinIo)) by {
      NobodyWaits(y, a.index);
      StoreStep(y.pool, a.file);
    }
    NewPageContent(y, io);
    SoundPointers(z);
    hide Sound, Alloc, AllocModel, AllocContent, PoolOpOk, Pin, Pointers;
    PinShowsContent(z, a.index, pinIo);
  }

  lemma NewPageContent(y: System, io: nat)
    requires Sound(y) && AllocModel(y.model, None, io).status == Ok
    ensures AllocModel(y.model, None, io).index !in y.content
  {
    NewPage(y.pool.file, y.model, io);
  }

  lemma OthersHold(y: System, f: nat)
    requires Sound(y) && Held(y.pool, f)
    ensures forall g | Held(y.pool, g) && g != f :: y.pool.metaframes[g].index != y.pool.metaframes[f].index
  {
  }

  lemma WriteMarkUnpin(s: Pool, f: nat, d: Page)
    requires f < |s.metaframes| == |s.buffer| && IsPinned(s.metaframes[f])
    ensures var marked := Mark(WriteFrame(s, f, d), f);
      var u := Unpin(marked.pool, f);
      && marked.status == Ok && u.status == Ok
      && |marked.pool.metaframes| == |marked.pool.buffer| == |s.buffer|
      && |WriteFrame(s, f, d).metaframes| == |s.metaframes|
      && marked.pool.metaframes[f].state == PinnedDirty && !IsPinned(u.pool.metaframes[f])
      && u.pool.metaframes == s.metaframes[f := u.pool.metaframes[f]]
  {
  }

  /** After write, mark and unpin, whatever the frame held and whether or not it was dirty:
      the frame waits to be written, and its page is pinned nowhere. */
  lemma Changed(y: System, f: nat, d: Page)
    requires Sound(y) && f < |y.pool.metaframes| == |y.pool.buffer| && IsPinned(y.pool.metaframes[f])
    ensures var marked := Mark(WriteFrame(y.pool, f, d), f);
      var u := Unpin(marked.pool, f);
      && marked.status == Ok && u.status == Ok
      && marked.pool.metaframes[f].state == PinnedDirty
      && PoolOpOk(WriteFrame(y.pool, f, d), y.model, MarkOp(f))
      && PoolOpOk(marked.pool, y.model, UnpinOp(f))
      && |u.pool.metaframes| == |y.pool.metaframes|
      && forall g | 0 <= g < |u.pool.metaframes| && IsPinned(u.pool.metaframes[g]) ::
           u.pool.metaframes[g].index != y.pool.metaframes[f].index
  {
    hide Sound, PageAt, Writeback, AllocOk, WriteFrame, Mark, Unpin;
    OthersHold(y, f);
    WriteMarkUnpin(y.pool, f, d);
  }

  lemma PinCall(y: System, index: int, io: nat) returns (z: System)
    requires Sound(y) && PoolOpOk(y.pool, y.model, PinOp(index, io))
    ensures z == PoolStep(y, PinOp(index, io)) && Sound(z)
    ensures Pointers(y.pool) && z.pool == Pin(y.pool, index, io).pool
    ensures z.model == y.model && z.content == y.content
  {
    hide Sound, Pin, PoolOpOk;
    z := PoolStep(y, PinOp(index, io));
    PoolStepSound(y, PinOp(index, io));
    SoundPointers(y);
  }

  lemma HeldIsLive(y: System, f: nat)
    requires Sound(y) && Held(y.pool, f)
    ensures y.pool.metaframes[f].index in y.model.live && y.pool.metaframes[f].index in y.content
  {
  }

  lemma WriteCall(y: System, f: nat, d: Page) returns (z: System)
    requires Sound(y) && f < |y.pool.metaframes| == |y.pool.buffer| && IsPinned(y.pool.metaframes[f])
    ensures PoolOpOk(y.pool, y.model, WriteOp(f, d)) && y.pool.metaframes[f].index in y.content
    ensures z == PoolStep(y, WriteOp(f, d)) && Sound(z) && z.model == y.model
    ensures z.pool == WriteFrame(y.pool, f, d) && z.content == y.content[y.pool.metaframes[f].index := d]
  {
    hide Sound, WriteFrame, PagePinned, FrameAllocated, FrameFreed, Flushed, Unpin, Mark;
    HeldIsLive(y, f);
    z := PoolStep(y, WriteOp(f, d));
    PoolStepSound(y, WriteOp(f, d));
  }

  lemma MarkCall(y: System, f: nat) returns (z: System)
    requires Sound(y) && PoolOpOk(y.pool, y.model, MarkOp(f))
    ensures z == PoolStep(y, MarkOp(f)) && Sound(z)
    ensures z.pool == Mark(y.pool, f).pool && z.model == y.model && z.content == y.content
  {
    hide Sound;
    z := PoolStep(y, MarkOp(f));
    PoolStepSound(y, MarkOp(f));
  }

  lemma UnpinCall(y: System, f: nat) returns (z: System)
    requires Sound(y) && PoolOpOk(y.pool, y.model, UnpinOp(f))
    ensures z == PoolStep(y, UnpinOp(f)) && Sound(z)
    ensures z.pool == Unpin(y.pool, f).pool && z.model == y.model && z.content == y.content
  {
    hide Sound;
    z := PoolStep(y, UnpinOp(f));
    PoolStepSound(y, UnpinOp(f));
  }

  lemma FlushedIs(y: System, ups: seq<bool>)
    requires Sound(y)
    ensures Frames(y.pool, Writeback(y.pool))
    ensures Flushed(y, ups).pool == Flush(y.pool, Writeback(y.pool), ups)
    ensures Flushed(y, ups).content == y.content
  {
    FlushDefined(y);
    hide Sound, Writeback, Flush, FlushModel, Frames;
  }

  lemma FlushCall(y: System, ups: seq<bool>)
    requires Sound(y)
    ensures PoolOpOk(y.pool, y.model, FlushOp(ups))
    ensures PoolStep(y, FlushOp(ups)) == Flushed(y, ups)
  {
    hide Sound, Flushed;
  }

  /** A client that keeps to the protocol gets its bytes to the disk: from any state a run can
      be in, it may write into a frame it has pinned, mark it and unpin it, and a flush whose
      writes go through then leaves the page on disk as it was written. */
  lemma UpdateReachesDisk(y: System, f: nat, d: Page) returns (y1: System, y2: System, y3: System, z: System)
    requires Sound(y) && f < |y.pool.metaframes| == |y.pool.buffer| && IsPinned(y.pool.metaframes[f])
    ensures PoolOpOk(y.pool, y.model, WriteOp(f, d)) && y1 == PoolStep(y, WriteOp(f, d)) && Sound(y1)
    ensures PoolOpOk(y1.pool, y1.model, MarkOp(f)) && y2 == PoolStep(y1, MarkOp(f)) && Sound(y2)
    ensures PoolOpOk(y2.pool, y2.model, UnpinOp(f)) && y3 == PoolStep(y2, UnpinOp(f)) && Sound(y3)
    ensures PoolOpOk(y3.pool, y3.model, FlushOp([])) && z == PoolStep(y3, FlushOp([]))
    ensures var p := y.pool.metaframes[f].index;
      && p in y.content && z.content == y.content[p := d]
      && z.pool.writeback == None
      && PageAt(z.pool.file, p) == d
  {
    Changed(y, f, d);
    hide Sound, PoolOpOk, PoolStep, Mark, Unpin, Flush, Flushed;
    y1 := WriteCall(y, f, d);
    y2 := MarkCall(y1, f);
    y3 := UnpinCall(y2, f);
    FlushCall(y3, []);
    FlushedIs(y3, []);
    z := PoolStep(y3, FlushOp([]));
    FlushIsDurable(y3, y.pool.metaframes[f].index);
  }
}
