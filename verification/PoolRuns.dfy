/** The buffer manager and the store together, over whole runs: a frame never stands between
    a client and its page, and no write-back lands on a page that is not live. */
module PoolRuns {
  import opened Wrappers
  import opened Sequences
  import opened Words
  import opened Files
  import opened Store
  import opened StoreInvariant
  import opened Pool
  import opened PoolInvariant

  datatype PoolOp =
    | PinOp(index: int, io: nat)
    | UnpinOp(frame: nat)
    | MarkOp(frame: nat)
    | WriteOp(frame: nat, data: Page)
    | AllocFrameOp(io: nat, pinIo: nat)
    | FreeFrameOp(frame: nat, io: nat)
    | FlushOp(ups: seq<bool>)

  /** The pool over a store that means model; content is what clients believe their pages hold. */
  datatype System = System(pool: Pool, model: Model, content: map<nat, Page>)

  /** Pinned, or waiting to be written: the frame speaks for its page. */
  predicate Held(s: Pool, f: int) {
    0 <= f < |s.metaframes| && s.metaframes[f].state != Unpinned
  }

  /** Every held page is live, and held once. */
  ghost predicate Owned(s: Pool, m: Model) {
    && (forall f | Held(s, f) :: s.metaframes[f].index in m.live)
    && (forall f, g | Held(s, f) && Held(s, g) && f != g :: s.metaframes[f].index != s.metaframes[g].index)
  }

  /** A page's content is in the frame that holds it, else on disk. */
  ghost predicate Shows(s: Pool, m: Model, content: map<nat, Page>)
    requires |s.buffer| == |s.metaframes|
  {
    && content.Keys == m.live.Keys
    && (forall f | Held(s, f) :: s.metaframes[f].index in content && s.buffer[f] == content[s.metaframes[f].index])
    && (forall p | p in content && (forall f | Held(s, f) :: s.metaframes[f].index != p) :: content[p] == m.live[p])
  }

  ghost predicate Sound(y: System) {
    && Tidy(y.pool, FreeList(y.pool), Writeback(y.pool))
    && Means(y.pool.file, y.model)
    && Owned(y.pool, y.model)
    && Shows(y.pool, y.model, y.content)
  }

  // ----- one call -----

  /** What clients and the machine owe: pages are pinned only while live and not while they
      wait to be written, a frame that was changed was marked, only pinned frames are changed
      or freed, and alloc_page meets none of its hazards. */
  predicate PoolOpOk(s: Pool, m: Model, op: PoolOp) {
    match op
    case PinOp(index, _) =>
      index <= 0
      || (index in m.live && forall f | f in Writeback(s) :: f < |s.metaframes| ==> s.metaframes[f].index != index)
    case UnpinOp(f) =>
      f < |s.metaframes| && f < |s.buffer|
      && (s.metaframes[f].state == Pinned ==> s.buffer[f] == PageAt(s.file, s.metaframes[f].index))
    case MarkOp(f) => f < |s.metaframes|
    case WriteOp(f, _) =>
      f < |s.metaframes| && f < |s.buffer| && IsPinned(s.metaframes[f]) && s.metaframes[f].index in m.live
    case AllocFrameOp(io, _) => AllocOk(m, None, io)
    case FreeFrameOp(f, _) => f < |s.metaframes| && IsPinned(s.metaframes[f]) && s.metaframes[f].index in m.live
    case FlushOp(_) => true
  }

  /** The store's meaning after some write-backs. */
  function FlushModel(s: Pool, m: Model, list: seq<nat>, ups: seq<bool>): Model
    requires Frames(s, list) && forall i | 0 <= i < |list| :: s.metaframes[list[i]].index in m.live
    ensures FlushModel(s, m, list, ups).live.Keys == m.live.Keys
  {
    if list == [] then m
    else
      var f := list[|list| - 1];
      var before := FlushModel(s, m, list[..|list| - 1], ups);
      PutModel(before, s.buffer[f], s.metaframes[f].index, Io(Up(ups, |list| - 1))).model
  }

  lemma FlushOneSound(t: Pool, m: Model, content: map<nat, Page>, f: nat, up: bool)
    requires Pointers(t) && Means(t.file, m) && Owned(t, m) && Shows(t, m, content) && Held(t, f)
    ensures var m' := PutModel(m, t.buffer[f], t.metaframes[f].index, Io(up)).model;
      var t' := FlushOne(t, f, up);
      Means(t'.file, m') && Owned(t', m') && Shows(t', m', content)
  {
    hide Put, Means;
    PutMeans(t.file, m, t.buffer[f], t.metaframes[f].index, Io(up));
  }

  lemma {:induction false} FlushElsewhere(s: Pool, list: seq<nat>, ups: seq<bool>)
    requires Pointers(s) && Frames(s, list)
    ensures Pointers(FlushList(s, list, ups))
    ensures forall f | 0 <= f < |s.metaframes| && f !in list :: FlushList(s, list, ups).metaframes[f] == s.metaframes[f]
  {
    if list != [] {
      hide Put;
      FlushElsewhere(s, list[..|list| - 1], ups);
    }
  }

  lemma HeldAreLive(s: Pool, m: Model)
    requires Owned(s, m)
    ensures forall f | Held(s, f) :: s.metaframes[f].index in m.live
  {
  }

  lemma {:induction false} FlushListSound(s: Pool, m: Model, content: map<nat, Page>, list: seq<nat>, ups: seq<bool>)
    requires Pointers(s) && Means(s.file, m) && Owned(s, m) && Shows(s, m, content)
    requires NoDup(list) && Frames(s, list) && forall i | 0 <= i < |list| :: Held(s, list[i])
    ensures forall i | 0 <= i < |list| :: s.metaframes[list[i]].index in m.live
    ensures var t := FlushList(s, list, ups); var m' := FlushModel(s, m, list, ups);
      Means(t.file, m') && Owned(t, m') && Shows(t, m', content)
  {
    hide Means, Owned, Shows, Pointers, FlushOne, NoDup;
    HeldAreLive(s, m);
    if list != [] {
      var init, f, up := list[..|list| - 1], list[|list| - 1], Up(ups, |list| - 1);
      FlushElsewhere(s, init, ups);
      InitNoDup(list);
      FlushListSound(s, m, content, init, ups);
      FlushOneSound(FlushList(s, init, ups), FlushModel(s, m, init, ups), content, f, up);
    }
  }

  /** Relinking frames says nothing about pages. */
  lemma ReclaimSound(t: Pool, m: Model, content: map<nat, Page>, list: seq<nat>)
    requires Frames(t, list) && Owned(t, m) && Shows(t, m, content)
    ensures Owned(ReclaimList(t, list), m) && Shows(ReclaimList(t, list), m, content)
  {
    var r := ReclaimList(t, list);
    assert forall f :: Held(r, f) <==> Held(t, f);
  }

  lemma WritebackFrames(s: Pool)
    requires Tidy(s, FreeList(s), Writeback(s))
    ensures Frames(s, Writeback(s))
    ensures forall i | 0 <= i < |Writeback(s)| :: Held(s, Writeback(s)[i])
  {
    var wb := Writeback(s);
    assert forall i | 0 <= i < |wb| :: wb[i] in wb;
  }

  lemma WaitingStates(s: Pool)
    requires Tidy(s, FreeList(s), Writeback(s))
    ensures Frames(s, Writeback(s))
    ensures forall i | 0 <= i < |Writeback(s)| :: s.metaframes[Writeback(s)[i]].state == UnpinnedDirty
  {
    var wb := Writeback(s);
    assert forall i | 0 <= i < |wb| :: wb[i] in wb;
    hide Linked, TableOk, Chain;
  }

  function FlushSystem(y: System, ups: seq<bool>): System
    requires Frames(y.pool, Writeback(y.pool))
    requires forall i | 0 <= i < |Writeback(y.pool)| :: y.pool.metaframes[Writeback(y.pool)[i]].index in y.model.live
  {
    var wb := Writeback(y.pool);
    System(Flush(y.pool, wb, ups), FlushModel(y.pool, y.model, wb, ups), y.content)
  }

  /** A flush, whichever of its writes fail, is invisible to clients and leaves the allocator
      as it was. */
  lemma FlushSound(y: System, ups: seq<bool>)
    requires Sound(y)
    ensures Frames(y.pool, Writeback(y.pool))
    ensures forall i | 0 <= i < |Writeback(y.pool)| :: y.pool.metaframes[Writeback(y.pool)[i]].index in y.model.live
    ensures Sound(FlushSystem(y, ups))
  {
    var s, wb := y.pool, Writeback(y.pool);
    WritebackFrames(s);
    FlushListSound(s, y.model, y.content, wb, ups);
    hide Means, Owned, Shows, Tidy;
    var t := FlushList(s, wb, ups);
    ReclaimSound(t, FlushModel(s, y.model, wb, ups), y.content, wb);
    FlushTidy(s, FreeList(s), wb, ups);
    ListsAreWalked(Flush(s, wb, ups), NewFree(t.metaframes, wb, FreeList(s)), NewWriteback(t.metaframes, wb));
  }

  // ----- the other calls -----

  lemma Walked(s: Pool, free: seq<nat>, wb: seq<nat>)
    requires Tidy(s, free, wb)
    ensures Tidy(s, FreeList(s), Writeback(s))
  {
    ListsAreWalked(s, free, wb);
  }

  /** Nothing but the store changed, and no held page died. */
  lemma StoreStep(s: Pool, file: File)
    requires Tidy(s, FreeList(s), Writeback(s))
    ensures Tidy(s.(file := file), FreeList(s), Writeback(s))
    ensures FreeList(s.(file := file)) == FreeList(s) && Writeback(s.(file := file)) == Writeback(s)
  {
  }

  /** A page that no frame holds, as buff_pin needs to find it. */
  lemma NotHeld(s: Pool, index: int, f: int)
    requires Tidy(s, FreeList(s), Writeback(s)) && Held(s, f) && index !in s.table
    requires forall g | g in Writeback(s) :: g < |s.metaframes| ==> s.metaframes[g].index != index
    ensures s.metaframes[f].index != index
  {
    if s.metaframes[f].state == UnpinnedDirty {
      assert f in Writeback(s);
    }
  }

  lemma SameLengths(s: Pool)
    requires Tidy(s, FreeList(s), Writeback(s))
    ensures |s.buffer| == |s.metaframes|
  {
  }

  // What a change to one frame does to who holds what.

  lemma Take(s: Pool, m: Model, content: map<nat, Page>, f: nat, meta: MetaFrame)
    requires |s.buffer| == |s.metaframes| && f < |s.buffer| && Owned(s, m) && Shows(s, m, content)
    requires !Held(s, f) && meta.state != Unpinned && meta.index in m.live
    requires forall g | Held(s, g) :: s.metaframes[g].index != meta.index
    ensures var r := s.(buffer := s.buffer[f := m.live[meta.index]], metaframes := s.metaframes[f := meta]);
      Owned(r, m) && Shows(r, m, content)
  {
    var r := s.(buffer := s.buffer[f := m.live[meta.index]], metaframes := s.metaframes[f := meta]);
    assert forall g :: Held(r, g) <==> Held(s, g) || g == f;
  }

  lemma Release(s: Pool, m: Model, content: map<nat, Page>, f: nat, meta: MetaFrame)
    requires |s.buffer| == |s.metaframes| && Owned(s, m) && Shows(s, m, content)
    requires Held(s, f) && meta.state == Unpinned
    ensures var p := s.metaframes[f].index;
      var r := s.(metaframes := s.metaframes[f := meta]);
      && p in m.live && Owned(r, m) && Shows(r, m, content[p := m.live[p]])
      && forall g | Held(r, g) :: r.metaframes[g].index != p
  {
    var r := s.(metaframes := s.metaframes[f := meta]);
    assert forall g :: Held(r, g) <==> Held(s, g) && g != f;
  }

  lemma Same(s: Pool, r: Pool, m: Model, content: map<nat, Page>)
    requires |s.buffer| == |s.metaframes| == |r.metaframes| && r.buffer == s.buffer
    requires Owned(s, m) && Shows(s, m, content)
    requires forall g :: Held(r, g) <==> Held(s, g)
    requires forall g | 0 <= g < |s.metaframes| :: r.metaframes[g].index == s.metaframes[g].index
    ensures Owned(r, m) && Shows(r, m, content)
  {
  }

  /** A page that no frame holds changes on disk. */
  lemma Unheld(s: Pool, m: Model, m': Model, content: map<nat, Page>, p: nat)
    requires |s.buffer| == |s.metaframes| && Owned(s, m) && Shows(s, m, content)
    requires forall g | Held(s, g) :: s.metaframes[g].index != p
    requires m'.live == (if p in m'.live then m.live[p := m'.live[p]] else m.live - {p})
    ensures Owned(s, m') && Shows(s, m', if p in m'.live then content[p := m'.live[p]] else content - {p})
  {
  }

  lemma PinSound(y: System, index: int, io: nat)
    requires Sound(y) && PoolOpOk(y.pool, y.model, PinOp(index, io))
    ensures Sound(y.(pool := Pin(y.pool, index, io).pool))
  {
    var s, m := y.pool, y.model;
    SameLengths(s);
    hide Means, Owned, Shows, Get, Chain, Linked, Holds, TableOk;
    PinTidy(s, FreeList(s), Writeback(s), index, io);
    if PinMoves(s, index, io) {
      var f := s.freelist.value;
      Walked(Pin(s, index, io).pool, FreeList(s)[1..], Writeback(s));
      PinGets(y, index, io);
      hide Tidy;
      Take(s, m, y.content, f, s.metaframes[f].(state := Pinned, index := index));
      var t := s.(buffer := s.buffer[f := m.live[index]],
                  metaframes := s.metaframes[f := s.metaframes[f].(state := Pinned, index := index)]);
      var r := Pin(s, index, io).pool;
      Same(t, r, m, y.content);
    }
  }

  lemma PinGets(y: System, index: int, io: nat)
    requires Sound(y) && PoolOpOk(y.pool, y.model, PinOp(index, io)) && PinMoves(y.pool, index, io)
    ensures var f := y.pool.freelist.value;
      && index in y.model.live && Get(y.pool.file, y.pool.buffer[f], index, io).page == y.model.live[index]
      && !Held(y.pool, f)
      && forall g | Held(y.pool, g) :: y.pool.metaframes[g].index != index
  {
    var s := y.pool;
    var f := s.freelist.value;
    assert FreeList(s)[0] == f && f in FreeList(s);
    forall g | Held(s, g)
      ensures s.metaframes[g].index != index
    {
      NotHeld(s, index, g);
    }
    GetMeans(s.file, y.model, s.buffer[f], index, io);
  }

  lemma UnpinSound(y: System, f: nat)
    requires Sound(y) && PoolOpOk(y.pool, y.model, UnpinOp(f))
    ensures Sound(y.(pool := Unpin(y.pool, f).pool))
  {
    match y.pool.metaframes[f].state {
      case Pinned => UnpinClean(y, f);
      case PinnedDirty => UnpinDirty(y, f);
      case _ =>
    }
  }

  lemma UnpinClean(y: System, f: nat)
    requires Sound(y) && f < |y.pool.metaframes| && f < |y.pool.buffer| && y.pool.metaframes[f].state == Pinned
    requires y.pool.buffer[f] == PageAt(y.pool.file, y.pool.metaframes[f].index)
    ensures Sound(y.(pool := Unpin(y.pool, f).pool))
  {
    var s, m, r := y.pool, y.model, Unpin(y.pool, f).pool;
    SameLengths(s);
    CleanContent(y, f);
    hide Means, Owned, Shows, Tidy, FreeList, Writeback, PageAt;
    UnpinWalked(s, f);
    Release(s, m, y.content, f, r.metaframes[f]);
    Same(s.(metaframes := s.metaframes[f := r.metaframes[f]]), r, m, y.content);
  }

  lemma UnpinDirty(y: System, f: nat)
    requires Sound(y) && f < |y.pool.metaframes| && y.pool.metaframes[f].state == PinnedDirty
    ensures Sound(y.(pool := Unpin(y.pool, f).pool))
  {
    hide Means, Owned, Shows, Tidy, FreeList, Writeback, Unpin;
    SameLengths(y.pool);
    UnpinWalked(y.pool, f);
    UnpinDirtySame(y.pool, y.model, y.content, f);
  }

  lemma UnpinWalked(s: Pool, f: nat)
    requires Tidy(s, FreeList(s), Writeback(s)) && f < |s.metaframes|
    ensures var r := Unpin(s, f).pool; r.file == s.file && Tidy(r, FreeList(r), Writeback(r))
  {
    hide Tidy, FreeList, Writeback;
    UnpinTidy(s, FreeList(s), Writeback(s), f);
    Walked(Unpin(s, f).pool, if s.metaframes[f].state == Pinned then [f] + FreeList(s) else FreeList(s),
      if s.metaframes[f].state == PinnedDirty then [f] + Writeback(s) else Writeback(s));
  }

  lemma UnpinDirtySame(s: Pool, m: Model, content: map<nat, Page>, f: nat)
    requires f < |s.metaframes| == |s.buffer| && s.metaframes[f].state == PinnedDirty
    requires Owned(s, m) && Shows(s, m, content)
    ensures var r := Unpin(s, f).pool;
      |r.metaframes| == |s.metaframes| && r.buffer == s.buffer && Owned(r, m) && Shows(r, m, content)
  {
    hide Owned, Shows;
    Same(s, Unpin(s, f).pool, m, content);
  }

  /** An unchanged frame shows what is on disk. */
  lemma CleanContent(y: System, f: nat)
    requires Sound(y) && Held(y.pool, f) && y.pool.buffer[f] == PageAt(y.pool.file, y.pool.metaframes[f].index)
    ensures var p := y.pool.metaframes[f].index;
      p in y.model.live && y.content[p := y.model.live[p]] == y.content
  {
    hide PageAt, Tidy, Chain;
  }

  lemma MarkSound(y: System, f: nat)
    requires Sound(y) && PoolOpOk(y.pool, y.model, MarkOp(f))
    ensures Sound(y.(pool := Mark(y.pool, f).pool))
  {
    hide Means, Owned, Shows, Tidy, FreeList, Writeback;
    var s, r := y.pool, Mark(y.pool, f).pool;
    SameLengths(s);
    if r != s {
      RepinTidy(s, FreeList(s), Writeback(s), f, PinnedDirty);
      Walked(r, FreeList(s), Writeback(s));
      Same(s, r, y.model, y.content);
    }
  }

  lemma WriteTidy(s: Pool, f: nat, d: Page)
    requires Tidy(s, FreeList(s), Writeback(s)) && f < |s.buffer|
    ensures Tidy(WriteFrame(s, f, d), FreeList(WriteFrame(s, f, d)), Writeback(WriteFrame(s, f, d)))
  {
    var r := WriteFrame(s, f, d);
    assert r.metaframes == s.metaframes;
    hide Chain, Linked, Holds;
  }

  lemma WriteSound(y: System, f: nat, d: Page)
    requires Sound(y) && PoolOpOk(y.pool, y.model, WriteOp(f, d))
    ensures y.pool.metaframes[f].index in y.model.live
    ensures Sound(System(WriteFrame(y.pool, f, d), y.model, y.content[y.pool.metaframes[f].index := d]))
  {
    hide Chain, Linked, Holds, TableOk, Means, Owned, Shows;
    WriteTidy(y.pool, f, d);
    WriteShows(y.pool, y.model, y.content, f, d);
  }

  lemma WriteShows(s: Pool, m: Model, content: map<nat, Page>, f: nat, d: Page)
    requires |s.buffer| == |s.metaframes| && Owned(s, m) && Shows(s, m, content) && Held(s, f)
    ensures s.metaframes[f].index in m.live
    ensures Owned(WriteFrame(s, f, d), m) && Shows(WriteFrame(s, f, d), m, content[s.metaframes[f].index := d])
  {
    assert forall g :: Held(WriteFrame(s, f, d), g) <==> Held(s, g);
  }

  // ----- buff_alloc_frame -----

  function AllocContent(y: System, io: nat): map<nat, Page> {
    var o := AllocModel(y.model, None, io);
    if o.status == Ok && o.index in o.model.live then y.content[o.index := o.model.live[o.index]] else y.content
  }

  lemma AllocSound(y: System, io: nat)
    requires Sound(y) && AllocOk(y.model, None, io)
    ensures var a := Alloc(y.pool.file, None, io); var o := AllocModel(y.model, None, io);
      && a.status == o.status && a.index == o.index
      && (a.status == Ok ==> a.index !in y.model.live && a.index in o.model.live)
      && Sound(System(y.pool.(file := a.file), o.model, AllocContent(y, io)))
  {
    var s, m := y.pool, y.model;
    AllocMeans(s.file, m, None, io);
    var a, o := Alloc(s.file, None, io), AllocModel(m, None, io);
    StoreStep(s, a.file);
    NewPage(s.file, m, io);
    var r := s.(file := a.file);
    assert forall g | Held(s, g) :: s.metaframes[g].index in m.live;
    hide Means, Tidy, Chain, Owned, Shows, Alloc, AllocModel;
    Same(s, r, m, y.content);
    if a.status == Ok {
      Unheld(r, m, o.model, y.content, o.index);
    }
  }

  /** alloc_page hands out a page that nobody had. */
  lemma NewPage(f: File, m: Model, io: nat)
    requires Means(f, m)
    ensures var o := AllocModel(m, None, io);
      if o.status == Ok then o.index !in m.live && o.index in o.model.live
        && o.model.live == m.live[o.index := o.model.live[o.index]]
      else o.model == m
  {
    hide FreeImage, PageAt;
    assert m.queue != [] ==> m.queue[0] in m.queue;
  }

  lemma AllocFrameSound(y: System, io: nat, pinIo: nat)
    requires Sound(y) && AllocOk(y.model, None, io)
    ensures Sound(System(AllocFrame(y.pool, io, pinIo).pool, AllocModel(y.model, None, io).model, AllocContent(y, io)))
  {
    hide Sound, Alloc, AllocModel, AllocContent, FreeList, Writeback, Pin;
    var s, a := y.pool, Alloc(y.pool.file, None, io);
    AllocSound(y, io);
    NobodyWaits(y, a.index);
    StoreStep(s, a.file);
    var z := System(s.(file := a.file), AllocModel(y.model, None, io).model, AllocContent(y, io));
    if a.status == Ok {
      PinSound(z, a.index, pinIo);
    }
  }

  lemma NobodyWaits(y: System, index: int)
    requires Sound(y)
    ensures Tidy(y.pool, FreeList(y.pool), Writeback(y.pool))
    ensures index !in y.model.live ==>
      forall f | f in Writeback(y.pool) :: f < |y.pool.metaframes| ==> y.pool.metaframes[f].index != index
  {
    var s := y.pool;
    hide Chain, Linked, TableOk, Means, Shows;
    forall f | f in Writeback(s)
      ensures f < |s.metaframes| ==> s.metaframes[f].index in y.model.live
    {
      assert f < |s.metaframes| ==> Held(s, f);
    }
  }

  // ----- buff_free_frame -----

  function FreeContent(y: System, p: nat, io: nat): map<nat, Page>
    requires p in y.model.live
  {
    var m' := FreeModel(y.model, p, io).model;
    if p in m'.live then y.content[p := m'.live[p]] else y.content - {p}
  }

  /** The frame with its state faked, as buff_free_frame does, and then unpinned. */
  function Released(s: Pool, f: nat): Pool
    requires f < |s.metaframes|
  {
    Unpin(s.(metaframes := s.metaframes[f := s.metaframes[f].(state := Pinned)]), f).pool
  }

  lemma ReleasedTidy(s: Pool, f: nat)
    requires Tidy(s, FreeList(s), Writeback(s)) && f < |s.metaframes| && IsPinned(s.metaframes[f])
    ensures var u := Released(s, f); Tidy(u, FreeList(u), Writeback(u))
  {
    hide Tidy, FreeList, Writeback;
    var faked := s.(metaframes := s.metaframes[f := s.metaframes[f].(state := Pinned)]);
    RepinTidy(s, FreeList(s), Writeback(s), f, Pinned);
    UnpinTidy(faked, FreeList(s), Writeback(s), f);
    Walked(Released(s, f), [f] + FreeList(s), Writeback(s));
  }

  lemma ReleasedSound(y: System, f: nat)
    requires Sound(y) && f < |y.pool.metaframes| && IsPinned(y.pool.metaframes[f])
    ensures var p := y.pool.metaframes[f].index; var u := Released(y.pool, f);
      && p in y.model.live && u.file == y.pool.file
      && Sound(System(u, y.model, y.content[p := y.model.live[p]]))
      && forall g | Held(u, g) :: u.metaframes[g].index != p
  {
    hide Means, Tidy, FreeList, Writeback, Owned, Shows;
    var s, m := y.pool, y.model;
    SameLengths(s);
    ReleasedTidy(s, f);
    var u := Released(s, f);
    Release(s, m, y.content, f, u.metaframes[f]);
    var p := s.metaframes[f].index;
    Same(s.(metaframes := s.metaframes[f := u.metaframes[f]]), u, m, y.content[p := m.live[p]]);
  }

  lemma FreeFrameSound(y: System, f: nat, io: nat)
    requires f < |y.pool.metaframes| && y.pool.metaframes[f].index in y.model.live
    requires IsPinned(y.pool.metaframes[f]) && Sound(y)
    ensures var p := y.pool.metaframes[f].index; var r := FreeFrame(y.pool, f, io);
      && r.status == FreeModel(y.model, p, io).status
      && Sound(System(r.pool, FreeModel(y.model, p, io).model, FreeContent(y, p, io)))
  {
    ReleasedSound(y, f);
    var p, m, u := y.pool.metaframes[f].index, y.model, Released(y.pool, f);
    FreeMeans(u.file, m, p, io);
    StoreStep(u, Free(u.file, p, io).file);
    FreedPage(m, p, io);
    hide Means, Tidy, Chain, Owned, Shows, Free, FreeModel, Held;
    var r := u.(file := Free(u.file, p, io).file);
    ReleasedThenFreed(u, r, m, FreeModel(m, p, io).model, y.content, p);
  }

  lemma ReleasedThenFreed(u: Pool, r: Pool, m: Model, m': Model, content: map<nat, Page>, p: nat)
    requires |u.buffer| == |u.metaframes| && r == u.(file := r.file)
    requires p in m.live && Owned(u, m) && Shows(u, m, content[p := m.live[p]])
    requires forall g | Held(u, g) :: u.metaframes[g].index != p
    requires m'.live == (if p in m'.live then m.live[p := m'.live[p]] else m.live - {p})
    ensures Owned(r, m') && Shows(r, m', if p in m'.live then content[p := m'.live[p]] else content - {p})
  {
    hide Owned, Shows, Held;
    HeldSame(u, r);
    Same(u, r, m, content[p := m.live[p]]);
    Unheld(r, m, m', content[p := m.live[p]], p);
    assert content[p := m.live[p]] - {p} == content - {p};
    assert p in m'.live ==> content[p := m.live[p]][p := m'.live[p]] == content[p := m'.live[p]];
  }

  lemma HeldSame(u: Pool, r: Pool)
    requires r.metaframes == u.metaframes
    ensures forall g :: Held(r, g) <==> Held(u, g)
  {
  }

  lemma FreedPage(m: Model, p: nat, io: nat)
    requires p in m.live
    ensures var m' := FreeModel(m, p, io).model;
      && (p in m'.live ==> m'.live == m.live[p := m'.live[p]])
      && (p !in m'.live ==> m'.live == m.live - {p})
  {
    hide FreeImage;
  }
}
