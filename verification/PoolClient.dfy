/** Clients that keep to the protocol of buffer_manager.h, judged by their calls, the answers they
    got, and which flushes they take to have gone through, which no answer tells. */
module PoolClient {
  import opened Wrappers
  import opened Words
  import opened Files
  import opened Store
  import opened StoreInvariant
  import opened StoreRuns
  import opened StoreFaults
  import opened Pool
  import opened PoolInvariant
  import opened PoolRuns
  import opened PoolTheorems
  import opened PoolFaults

  // ----- calls and answers -----

  datatype PoolReply =
    | Pinning(status: Status, frame: Option<nat>)
    | Pairing(status: Status, page: int, frame: Option<nat>)
    | Plain(status: Status)

  datatype Called = Called(pool: Pool, reply: PoolReply)

  /** What the C code needs in order not to leave its arrays. */
  ghost predicate Callable(s: Pool, op: PoolOp) {
    && Pointers(s) && Frames(s, Writeback(s))
    && (op.UnpinOp? || op.MarkOp? || op.WriteOp? || op.FreeFrameOp? ==> op.frame < |s.metaframes|)
  }

  ghost function Call(s: Pool, op: PoolOp): Called
    requires Callable(s, op)
  {
    match op
    case PinOp(index, io) => var r := Pin(s, index, io); Called(r.pool, Pinning(r.status, r.frame))
    case UnpinOp(f) => var r := Unpin(s, f); Called(r.pool, Plain(r.status))
    case MarkOp(f) => var r := Mark(s, f); Called(r.pool, Plain(r.status))
    case WriteOp(f, d) => Called(WriteFrame(s, f, d), Plain(Ok))
    case AllocFrameOp(io, pinIo) =>
      var r := AllocFrame(s, io, pinIo); Called(r.pool, Pairing(r.status, r.page, r.frame))
    case FreeFrameOp(f, io) => var r := FreeFrame(s, f, io); Called(r.pool, Plain(r.status))
    case FlushOp(ups) => Called(Flush(s, Writeback(s), ups), Plain(Ok))
  }

  // ----- what a client knows -----

  /** A frame the client has pinned: its page, and what it did to it since. */
  datatype Grip = Grip(page: nat, written: bool, marked: bool)

  /** owned: the frames it has pinned.  pages: the pages it may use.  known: the bytes of the
      pages it knows.  waiting: the pages it unpinned as changed since the last flush that it
      trusts.  settled: no buff_free_frame has answered that a write failed since the
      last one that succeeded.  lost: the calls of buff_alloc_frame that may have lost a page.
      peak: the most pages, used or lost, there were at once. */
  datatype Client = Client(
    owned: map<nat, Grip>,
    pages: set<nat>,
    known: map<nat, Page>,
    waiting: set<nat>,
    settled: bool,
    lost: nat,
    peak: nat)

  /** A client that starts on a store whose pages and contents it knows. */
  function Newcomer(m: Model): Client
    requires 1 <= m.size
  {
    Client(map[], m.live.Keys, m.live, {}, true, 0, m.size - 1)
  }

  /** The protocol: pin only pages you have and have not just changed; use, mark, unpin and free
      only frames you have pinned; mark what you have written before you unpin it; and ask for
      a new page only while there never were PAGESIZE at once, and not after a failed free. */
  predicate ClientOk(c: Client, op: PoolOp) {
    match op
    case PinOp(index, _) => index <= 0 || (index in c.pages && index !in c.waiting)
    case UnpinOp(f) => f in c.owned && (c.owned[f].written ==> c.owned[f].marked)
    case MarkOp(f) => f in c.owned
    case WriteOp(f, _) => f in c.owned
    case AllocFrameOp(_, _) => c.settled && c.peak < PAGESIZE
    case FreeFrameOp(f, _) => f in c.owned
    case FlushOp(_) => true
  }

  predicate AllUp(ups: seq<bool>) {
    forall i | 0 <= i < |ups| :: ups[i]
  }

  /** Trust in a flush is deserved if the machine refuses none of its writes; nothing else is
      taken on trust. */
  predicate Deserved(op: PoolOp, trust: bool) {
    op.FlushOp? && trust ==> AllUp(op.ups)
  }

  function AtLeast(n: nat, k: nat): nat {
    if n < k then k else n
  }

  function Marked(owned: map<nat, Grip>, f: nat): map<nat, Grip>
    requires f in owned
  {
    owned[f := owned[f].(marked := true)]
  }

  function Wrote(owned: map<nat, Grip>, f: nat): map<nat, Grip>
    requires f in owned
  {
    owned[f := owned[f].(written := true)]
  }

  function Took(c: Client, f: nat, p: nat): Client {
    c.(owned := c.owned[f := Grip(p, false, false)], pages := c.pages + {p},
       peak := AtLeast(c.peak, |c.pages + {p}| + c.lost))
  }

  function Lost(c: Client): Client {
    c.(lost := c.lost + 1, peak := AtLeast(c.peak, |c.pages| + c.lost + 1))
  }

  function Asked(c: Client, status: Status, page: int, frame: Option<nat>): Client {
    if status == Ok then if 0 <= page && frame.Some? then Took(c, frame.value, page) else c
    else if status == NoFreeFrames || status == BadRead then Lost(c) else c
  }

  function Gave(c: Client, f: nat, status: Status): Client
    requires f in c.owned
  {
    var p := c.owned[f].page;
    c.(owned := c.owned - {f}, known := c.known - {p},
       pages := if status == Ok then c.pages - {p} else c.pages,
       settled := if status == Ok then true else if status == BadWrite then false else c.settled)
  }

  function Let(c: Client, f: nat): Client
    requires f in c.owned
  {
    var g := c.owned[f];
    c.(owned := c.owned - {f}, waiting := if g.marked then c.waiting + {g.page} else c.waiting)
  }

  /** What one call and its answer teach the client.  buff_flush_all answers STATUS_OK whatever
      happens, so that the client can only trust that all writes went through, or not. */
  function ClientStep(c: Client, op: PoolOp, reply: PoolReply, trust: bool): Client
    requires ClientOk(c, op)
  {
    match (op, reply)
    case (PinOp(index, _), Pinning(Ok, Some(f))) =>
      if index <= 0 || f in c.owned then c else c.(owned := c.owned[f := Grip(index, false, false)])
    case (UnpinOp(f), _) => Let(c, f)
    case (MarkOp(f), _) => c.(owned := Marked(c.owned, f))
    case (WriteOp(f, d), _) => c.(owned := Wrote(c.owned, f), known := c.known[c.owned[f].page := d])
    case (AllocFrameOp(_, _), Pairing(status, page, frame)) => Asked(c, status, page, frame)
    case (FreeFrameOp(f, _), _) => Gave(c, f, reply.status)
    case (FlushOp(_), _) => if trust then c.(waiting := {}) else c
    case _ => c
  }

  // ----- why it is right -----

  /** A grip says how things are with its frame. */
  ghost predicate Gripped(g: Grip, meta: MetaFrame, data: Page, m: Model) {
    && meta.index == g.page && g.page in m.live
    && (g.marked <==> meta.state == PinnedDirty)
    && (!g.written ==> data == m.live[g.page])
  }

  ghost predicate Grips(owned: map<nat, Grip>, s: Pool, m: Model)
    requires |s.buffer| == |s.metaframes|
  {
    && (forall f :: f in owned <==> 0 <= f < |s.metaframes| && IsPinned(s.metaframes[f]))
    && (forall f | f in owned :: Gripped(owned[f], s.metaframes[f], s.buffer[f], m))
  }

  ghost predicate Waits(waiting: set<nat>, s: Pool) {
    forall f | 0 <= f < |s.metaframes| && s.metaframes[f].state == UnpinnedDirty :: s.metaframes[f].index in waiting
  }

  ghost predicate Knows(known: map<nat, Page>, content: map<nat, Page>) {
    forall p | p in known :: p in content && content[p] == known[p]
  }

  /** No page but the last is loose, and none at all when the last free that mattered succeeded. */
  ghost predicate Settled(m: Model, settled: bool) {
    && (forall p | p in m.loose :: m.queue != [] && p == m.queue[|m.queue| - 1])
    && (settled ==> m.loose == {})
  }

  ghost predicate Counts(c: Client, m: Model) {
    && (forall p | p in c.pages :: p in m.live)
    && (forall f | f in c.owned :: c.owned[f].page in c.pages)
    && |m.live| <= |c.pages| + c.lost && m.size - 1 <= c.peak
    && Settled(m, c.settled)
  }

  ghost predicate ClientAgrees(c: Client, y: System) {
    && |y.pool.buffer| == |y.pool.metaframes|
    && Grips(c.owned, y.pool, y.model)
    && Waits(c.waiting, y.pool)
    && Knows(c.known, y.content)
    && Counts(c, y.model)
  }

  /** One frame, f, changes hands or state; everything that is said of the others stays. */
  lemma Regrip(owned: map<nat, Grip>, s: Pool, m: Model, owned': map<nat, Grip>, s': Pool, m': Model, f: nat)
    requires |s.buffer| == |s.metaframes| == |s'.metaframes| == |s'.buffer| && Grips(owned, s, m)
    requires f < |s.metaframes| && owned' - {f} == owned - {f}
    requires forall g | 0 <= g < |s.metaframes| && g != f ::
      s'.metaframes[g] == s.metaframes[g] && s'.buffer[g] == s.buffer[g]
    requires forall g | g in owned && g != f ::
      owned[g].page in m'.live && m'.live[owned[g].page] == m.live[owned[g].page]
    requires f in owned' <==> IsPinned(s'.metaframes[f])
    requires f in owned' ==> Gripped(owned'[f], s'.metaframes[f], s'.buffer[f], m')
    ensures Grips(owned', s', m')
  {
    forall g: nat
      ensures g in owned' <==> g < |s'.metaframes| && IsPinned(s'.metaframes[g])
      ensures g in owned' ==> Gripped(owned'[g], s'.metaframes[g], s'.buffer[g], m')
    {
      if g != f {
        assert g in owned' <==> g in owned' - {f};
        assert g in owned <==> g in owned - {f};
        assert g in owned ==> owned'[g] == (owned' - {f})[g] == (owned - {f})[g] == owned[g];
      }
    }
  }

  /** Different frames that a client owns hold different pages. */
  lemma OwnsApart(c: Client, y: System, f: nat)
    requires Sound(y) && ClientAgrees(c, y) && f in c.owned
    ensures f < |y.pool.metaframes| == |y.pool.buffer| && Held(y.pool, f) && IsPinned(y.pool.metaframes[f])
    ensures y.pool.metaframes[f].index == c.owned[f].page && c.owned[f].page in y.model.live
    ensures forall g | g in c.owned && g != f :: c.owned[g].page != c.owned[f].page
  {
    OthersHold(y, f);
    hide Sound, Waits, Knows, Counts;
  }

  // buff_unpin

  lemma UnpinAllowed(c: Client, y: System, f: nat)
    requires Sound(y) && ClientAgrees(c, y) && ClientOk(c, UnpinOp(f))
    ensures PoolOpOk(y.pool, y.model, UnpinOp(f))
  {
    OwnsApart(c, y, f);
    hide Tidy, Owned, Shows, PageAt, Waits, Knows, Counts, Partition, Chained, AllocOk, Writeback;
  }

  lemma UnpinAgrees(c: Client, y: System, f: nat)
    requires ClientAgrees(c, y) && ClientOk(c, UnpinOp(f)) && f < |y.pool.metaframes|
    ensures ClientAgrees(Let(c, f), y.(pool := Unpin(y.pool, f).pool))
  {
    hide Grips, Waits, Settled, Knows;
    UnpinGrips(c.owned, y.pool, y.model, f);
    UnpinWaits(c, y.pool, y.model, f);
    hide Unpin;
  }

  lemma UnpinGrips(owned: map<nat, Grip>, s: Pool, m: Model, f: nat)
    requires |s.buffer| == |s.metaframes| && f in owned && Grips(owned, s, m)
    ensures var r := Unpin(s, f).pool;
      |r.buffer| == |r.metaframes| && Grips(owned - {f}, r, m)
  {
    Regrip(owned, s, m, owned - {f}, Unpin(s, f).pool, m, f);
  }

  lemma UnpinWaits(c: Client, s: Pool, m: Model, f: nat)
    requires |s.buffer| == |s.metaframes| && f in c.owned && Grips(c.owned, s, m) && Waits(c.waiting, s)
    ensures Waits(Let(c, f).waiting, Unpin(s, f).pool)
  {
  }

  // buff_mark_page, and writing into a frame

  lemma MarkAgrees(c: Client, y: System, f: nat)
    requires ClientAgrees(c, y) && f in c.owned && f < |y.pool.metaframes|
    ensures ClientAgrees(c.(owned := Marked(c.owned, f)), y.(pool := Mark(y.pool, f).pool))
  {
    hide Grips, Settled, Knows;
    MarkGrips(c.owned, y.pool, y.model, f);
  }

  lemma MarkGrips(owned: map<nat, Grip>, s: Pool, m: Model, f: nat)
    requires |s.buffer| == |s.metaframes| && f in owned && Grips(owned, s, m)
    ensures var r := Mark(s, f).pool;
      |r.buffer| == |r.metaframes| && Grips(Marked(owned, f), r, m)
  {
    assert Marked(owned, f) - {f} == owned - {f};
    Regrip(owned, s, m, Marked(owned, f), Mark(s, f).pool, m, f);
  }

  lemma WriteAgrees(c: Client, y: System, f: nat, d: Page)
    requires ClientAgrees(c, y) && f in c.owned
    requires f < |y.pool.metaframes| && y.pool.metaframes[f].index in y.model.live
    requires y.pool.metaframes[f].index == c.owned[f].page
    ensures ClientAgrees(c.(owned := Wrote(c.owned, f), known := c.known[c.owned[f].page := d]), Written(y, f, d))
  {
    hide Grips, Settled;
    WriteGrips(c.owned, y.pool, y.model, f, d);
  }

  lemma WriteGrips(owned: map<nat, Grip>, s: Pool, m: Model, f: nat, d: Page)
    requires |s.buffer| == |s.metaframes| && f in owned && f < |s.buffer| && Grips(owned, s, m)
    ensures var r := WriteFrame(s, f, d);
      |r.buffer| == |r.metaframes| && Grips(Wrote(owned, f), r, m)
  {
    assert Wrote(owned, f) - {f} == owned - {f};
    Regrip(owned, s, m, Wrote(owned, f), WriteFrame(s, f, d), m, f);
  }

  // buff_pin

  lemma PinAllowed(c: Client, y: System, index: int, io: nat)
    requires Sound(y) && ClientAgrees(c, y) && ClientOk(c, PinOp(index, io))
    ensures PoolOpOk(y.pool, y.model, PinOp(index, io))
  {
    var s := y.pool;
    hide Linked, TableOk, Means, Owned, Shows, Grips, Knows, Writeback, FreeList, Settled, AllocOk;
    assert forall f | f in Writeback(s) :: f < |s.metaframes| && s.metaframes[f].state == UnpinnedDirty;
  }

  /** A free frame becomes the client's, and shows page p. */
  lemma Grasp(owned: map<nat, Grip>, s: Pool, m: Model, s': Pool, m': Model, f: nat, p: nat)
    requires |s.buffer| == |s.metaframes| && Grips(owned, s, m) && f < |s.metaframes|
    requires s.metaframes[f].state == Unpinned && p in m'.live
    requires forall g | g in owned :: owned[g].page in m'.live && m'.live[owned[g].page] == m.live[owned[g].page]
    requires exists link ::
      s'.metaframes == s.metaframes[f := MetaFrame(Pinned, p, link)]
    requires s'.buffer == s.buffer[f := m'.live[p]]
    ensures f !in owned
    ensures |s'.buffer| == |s'.metaframes| && Grips(owned[f := Grip(p, false, false)], s', m')
    ensures forall waiting | Waits(waiting, s) :: Waits(waiting, s')
  {
    var owned' := owned[f := Grip(p, false, false)];
    assert owned' - {f} == owned - {f};
    Regrip(owned, s, m, owned', s', m', f);
    hide Grips;
  }

  lemma PinAgrees(c: Client, y: System, index: int, io: nat, trust: bool)
    requires Sound(y) && ClientAgrees(c, y) && ClientOk(c, PinOp(index, io)) && Callable(y.pool, PinOp(index, io))
    ensures ClientAgrees(ClientStep(c, PinOp(index, io), Call(y.pool, PinOp(index, io)).reply, trust),
                   y.(pool := Pin(y.pool, index, io).pool))
  {
    PinAllowed(c, y, index, io);
    if PinMoves(y.pool, index, io) {
      PinGets(y, index, io);
      PinTakes(c, y, index, io, trust);
    } else {
      PinStays(c, y, index, io, trust);
    }
  }

  lemma PinTakes(c: Client, y: System, index: int, io: nat, trust: bool)
    requires ClientAgrees(c, y) && ClientOk(c, PinOp(index, io)) && Callable(y.pool, PinOp(index, io))
    requires PinMoves(y.pool, index, io) && index in y.model.live && 0 < index
    requires Get(y.pool.file, y.pool.buffer[y.pool.freelist.value], index, io).page == y.model.live[index]
    requires !Held(y.pool, y.pool.freelist.value)
    ensures ClientAgrees(ClientStep(c, PinOp(index, io), Call(y.pool, PinOp(index, io)).reply, trust),
                   y.(pool := Pin(y.pool, index, io).pool))
  {
    hide Get, Settled, Grips, Waits, Knows;
    var s, f := y.pool, y.pool.freelist.value;
    Grasp(c.owned, s, y.model, Pin(s, index, io).pool, y.model, f, index);
  }

  lemma PinStays(c: Client, y: System, index: int, io: nat, trust: bool)
    requires ClientAgrees(c, y) && ClientOk(c, PinOp(index, io)) && Callable(y.pool, PinOp(index, io))
    requires !PinMoves(y.pool, index, io) && TableOk(y.pool)
    ensures ClientAgrees(ClientStep(c, PinOp(index, io), Call(y.pool, PinOp(index, io)).reply, trust),
                   y.(pool := Pin(y.pool, index, io).pool))
  {
    hide Get, Counts, Waits, Knows;
  }

  // buff_alloc_frame

  lemma AllocAllowed(c: Client, y: System, io: nat, pinIo: nat)
    requires Sound(y) && ClientAgrees(c, y) && ClientOk(c, AllocFrameOp(io, pinIo))
    ensures AllocOk(y.model, None, io) && y.model.loose == {}
  {
    hide Tidy, Owned, Shows, Grips, Waits, Knows, Chained, StrayHarmless;
    if y.model.queue != [] {
      SmallStoresAreSafe(y.model);
    }
  }

  /** The frame and the page of a call that succeeds. */
  lemma AllocFrameTakes(s: Pool, io: nat, pinIo: nat)
    requires Pointers(s) && AllocFrame(s, io, pinIo).status == Ok
    requires Alloc(s.file, None, io).index !in s.table
    ensures var r := AllocFrame(s, io, pinIo);
      && s.freelist.Some? && r.frame == s.freelist
      && r.pool.metaframes == s.metaframes[s.freelist.value :=
           MetaFrame(Pinned, r.page, s.metaframes[s.freelist.value].next)]
      && r.pool.buffer == s.buffer[s.freelist.value := r.pool.buffer[s.freelist.value]]
  {
    hide Alloc, Get;
    var f := s.freelist.value;
    var meta := s.metaframes[f];
    assert MetaFrame(Pinned, Alloc(s.file, None, io).index, meta.next) ==
      meta.(state := Pinned).(index := Alloc(s.file, None, io).index);
  }

  lemma AllocFrameStays(s: Pool, io: nat, pinIo: nat)
    requires Pointers(s) && AllocFrame(s, io, pinIo).status != Ok
    ensures var r := AllocFrame(s, io, pinIo);
      r.pool.metaframes == s.metaframes && r.pool.buffer == s.buffer
  {
    hide Alloc, Get;
  }

  /** How the store may have grown. */
  lemma AllocCounts(y: System, io: nat)
    requires Sound(y) && AllocOk(y.model, None, io)
    ensures var m := y.model; var o := AllocModel(m, None, io);
      && o.model.loose == m.loose
      && (forall p | p in m.live :: p in o.model.live && o.model.live[p] == m.live[p])
      && (if o.status == Ok then o.index !in m.live && o.index in o.model.live else o.model == m)
      && |o.model.live| <= |m.live| + (if o.status == Ok then 1 else 0)
      && o.model.size - 1 <= Max(m.size - 1, |o.model.live|)
  {
    hide Means, Tidy, Owned, Shows, AllocModel, AllocOk;
    var m := y.model;
    AllocLoose(m, io);
    NewPage(y.pool.file, m, io);
    StepGrowth(y.pool.file, m, AllocOp(None, io));
    var o := AllocModel(m, None, io);
    if o.status == Ok {
      OneMorePage(m.live, o.index, o.model.live[o.index]);
    }
  }

  lemma AllocLoose(m: Model, io: nat)
    ensures AllocModel(m, None, io).model.loose == m.loose
  {
    hide FreeImage, Writable;
  }

  lemma OneMorePage(live: map<nat, Page>, p: nat, d: Page)
    requires p !in live
    ensures |live[p := d]| == |live| + 1
  {
    assert live[p := d].Keys == live.Keys + {p};
  }

  lemma TookCounts(c: Client, m: Model, m': Model, f: nat, p: nat)
    requires Counts(c, m) && c.settled && m'.loose == m.loose
    requires forall q | q in m.live :: q in m'.live
    requires p !in m.live && p in m'.live && |m'.live| <= |m.live| + 1
    requires m'.size - 1 <= Max(m.size - 1, |m'.live|)
    ensures Counts(Took(c, f, p), m')
  {
    assert p !in c.pages && |c.pages + {p}| == |c.pages| + 1;
  }

  lemma LostCounts(c: Client, m: Model, m': Model)
    requires Counts(c, m) && c.settled && m'.loose == m.loose
    requires forall q | q in m.live :: q in m'.live
    requires |m'.live| <= |m.live| + 1
    requires m'.size - 1 <= Max(m.size - 1, |m'.live|)
    ensures Counts(Lost(c), m')
  {
  }

  lemma AllocKnows(known: map<nat, Page>, y: System, io: nat)
    requires Sound(y) && Knows(known, y.content)
    ensures Knows(known, AllocContent(y, io))
  {
    NewPage(y.pool.file, y.model, io);
    hide AllocModel, Tidy, Means, Owned;
  }

  /** The same frames over a store that has more pages. */
  lemma SameGrips(owned: map<nat, Grip>, s: Pool, m: Model, s': Pool, m': Model)
    requires |s.buffer| == |s.metaframes| && Grips(owned, s, m)
    requires s'.metaframes == s.metaframes && s'.buffer == s.buffer
    requires forall g | g in owned :: owned[g].page in m'.live && m'.live[owned[g].page] == m.live[owned[g].page]
    ensures Grips(owned, s', m')
    ensures forall waiting | Waits(waiting, s) :: Waits(waiting, s')
  {
  }

  lemma OwnedLive(c: Client, m: Model, m': Model)
    requires Counts(c, m) && forall p | p in m.live :: p in m'.live && m'.live[p] == m.live[p]
    ensures forall g | g in c.owned :: c.owned[g].page in m'.live && m'.live[c.owned[g].page] == m.live[c.owned[g].page]
  {
    hide Settled;
  }

  lemma AllocAgrees(c: Client, y: System, io: nat, pinIo: nat)
    requires Sound(y) && ClientAgrees(c, y) && Pointers(y.pool) && ClientOk(c, AllocFrameOp(io, pinIo))
    ensures var r := AllocFrame(y.pool, io, pinIo);
      ClientAgrees(Asked(c, r.status, r.page, r.frame), FrameAllocated(y, io, pinIo))
  {
    hide Sound, ClientAgrees, AllocFrame, AllocModel, AllocContent, FrameAllocated, Pointers, AllocOk, Asked;
    AllocAllowed(c, y, io, pinIo);
    AllocFrameExact(y, io, pinIo);
    if AllocFrame(y.pool, io, pinIo).status == Ok {
      AllocAgreesOk(c, y, io, pinIo);
    } else {
      AllocAgreesNot(c, y, io, pinIo);
    }
  }

  lemma AllocAgreesOk(c: Client, y: System, io: nat, pinIo: nat)
    requires Sound(y) && ClientAgrees(c, y) && Pointers(y.pool) && c.settled && AllocOk(y.model, None, io)
    requires AllocFrame(y.pool, io, pinIo).status == Ok && AllocModel(y.model, None, io).status == Ok
    requires y.pool.freelist.Some? && 1 <= pinIo
    ensures var r := AllocFrame(y.pool, io, pinIo);
      ClientAgrees(Asked(c, Ok, r.page, r.frame), FrameAllocated(y, io, pinIo))
  {
    hide Sound, Grips, Waits, Knows, Counts, AllocModel, AllocContent, AllocFrame, AllocOk, Pointers;
    var r, o := AllocFrame(y.pool, io, pinIo), AllocModel(y.model, None, io);
    AllocCounts(y, io);
    AllocKnows(c.known, y, io);
    AllocTook(c, y, io, pinIo);
    TookCounts(c, y.model, o.model, r.frame.value, r.page);
  }

  lemma AllocAgreesNot(c: Client, y: System, io: nat, pinIo: nat)
    requires Sound(y) && ClientAgrees(c, y) && Pointers(y.pool) && c.settled && AllocOk(y.model, None, io)
    requires var r := AllocFrame(y.pool, io, pinIo);
      r.status != Ok && (AllocModel(y.model, None, io).status == Ok ==> r.status == NoFreeFrames || r.status == BadRead)
    ensures var r := AllocFrame(y.pool, io, pinIo);
      ClientAgrees(Asked(c, r.status, r.page, r.frame), FrameAllocated(y, io, pinIo))
  {
    hide Sound, Grips, Waits, Knows, Counts, AllocModel, AllocContent, AllocFrame, AllocOk, Pointers;
    var r, o := AllocFrame(y.pool, io, pinIo), AllocModel(y.model, None, io);
    AllocCounts(y, io);
    AllocKnows(c.known, y, io);
    AllocFrameStays(y.pool, io, pinIo);
    OwnedLive(c, y.model, o.model);
    SameGrips(c.owned, y.pool, y.model, r.pool, o.model);
    LostCounts(c, y.model, o.model);
  }

  lemma AllocTook(c: Client, y: System, io: nat, pinIo: nat)
    requires Sound(y) && ClientAgrees(c, y) && Pointers(y.pool) && AllocFrame(y.pool, io, pinIo).status == Ok
    requires AllocOk(y.model, None, io) && y.pool.freelist.Some? && 1 <= pinIo
    requires AllocModel(y.model, None, io).status == Ok
    ensures var r := AllocFrame(y.pool, io, pinIo); var o := AllocModel(y.model, None, io);
      && 0 <= r.page == o.index && r.frame.Some? && |r.pool.buffer| == |r.pool.metaframes|
      && Grips(c.owned[r.frame.value := Grip(r.page, false, false)], r.pool, o.model)
      && Waits(c.waiting, r.pool)
  {
    var r, o, f := AllocFrame(y.pool, io, pinIo), AllocModel(y.model, None, io), y.pool.freelist.value;
    AllocSound(y, io);
    AllocFrameGives(y, io, pinIo);
    NotInTable(y, o.index);
    AllocFrameTakes(y.pool, io, pinIo);
    AllocCounts(y, io);
    OwnedLive(c, y.model, o.model);
    HeadIsUnpinned(y.pool, FreeList(y.pool), Writeback(y.pool));
    hide Sound, Grips, Waits, Knows, Counts, AllocModel, AllocFrame, Means, Alloc;
    Grasp(c.owned, y.pool, y.model, r.pool, o.model, f, r.page);
  }

  // buff_free_frame

  lemma FreeFrameLeaves(s: Pool, f: nat, io: nat)
    requires f < |s.metaframes|
    ensures var r := FreeFrame(s, f, io).pool;
      && r.metaframes == s.metaframes[f := r.metaframes[f]] && r.metaframes[f].state == Unpinned
      && r.buffer == s.buffer
  {
    hide Free;
  }

  lemma FreeSettled(m: Model, p: nat, io: nat, settled: bool)
    requires p in m.live && Settled(m, settled)
    ensures var o := FreeModel(m, p, io);
      Settled(o.model, if o.status == Ok then true else if o.status == BadWrite then false else settled)
  {
    hide FreeImage;
  }

  lemma FreeCounts(c: Client, m: Model, f: nat, io: nat)
    requires Counts(c, m) && f in c.owned && c.owned[f].page in m.live
    requires forall g | g in c.owned && g != f :: c.owned[g].page != c.owned[f].page
    ensures var o := FreeModel(m, c.owned[f].page, io); Counts(Gave(c, f, o.status), o.model)
  {
    var p := c.owned[f].page;
    var o := FreeModel(m, p, io);
    FreeSettled(m, p, io, c.settled);
    FreeKeys(m, p, io);
    hide FreeModel, Settled;
    if o.status == Ok {
      assert |m.live.Keys - {p}| == |m.live| - 1;
    }
  }

  lemma FreeKeys(m: Model, p: nat, io: nat)
    requires p in m.live
    ensures var o := FreeModel(m, p, io);
      && o.model.live.Keys == (if o.status == Ok then m.live.Keys - {p} else m.live.Keys)
      && |o.model.live| == |o.model.live.Keys| && |m.live| == |m.live.Keys|
      && o.model.size == m.size
      && forall q | q in m.live && q != p :: q in o.model.live && o.model.live[q] == m.live[q]
  {
    hide FreeImage;
  }

  lemma FreeAgrees(c: Client, y: System, f: nat, io: nat)
    requires Sound(y) && ClientAgrees(c, y) && f in c.owned && f < |y.pool.metaframes|
    requires y.pool.metaframes[f].index in y.model.live && IsPinned(y.pool.metaframes[f])
    ensures ClientAgrees(Gave(c, f, FreeFrame(y.pool, f, io).status), FrameFreed(y, f, io))
  {
    hide Sound, Grips, Waits, Counts, Knows, FreeModel, FreeFrame, FreeContent;
    OwnsApart(c, y, f);
    FreeFrameSound(y, f, io);
    FreeCounts(c, y.model, f, io);
    FreeKnows(c.known, y, c.owned[f].page, io);
    FreeGrips(c, y, f, io);
    FreeWaits(c.waiting, y.pool, f, io);
  }

  lemma FreeWaits(waiting: set<nat>, s: Pool, f: nat, io: nat)
    requires f < |s.metaframes| && Waits(waiting, s)
    ensures Waits(waiting, FreeFrame(s, f, io).pool)
  {
    hide FreeFrame;
    FreeFrameLeaves(s, f, io);
  }

  lemma FreeKnows(known: map<nat, Page>, y: System, p: nat, io: nat)
    requires Knows(known, y.content) && p in y.model.live
    ensures Knows(known - {p}, FreeContent(y, p, io))
  {
    hide FreeModel;
  }

  lemma FreeGrips(c: Client, y: System, f: nat, io: nat)
    requires ClientAgrees(c, y) && f in c.owned && f < |y.pool.metaframes| && c.owned[f].page in y.model.live
    requires forall g | g in c.owned && g != f :: c.owned[g].page != c.owned[f].page
    ensures var r := FreeFrame(y.pool, f, io).pool;
      && |r.metaframes| == |r.buffer|
      && Grips(c.owned - {f}, r, FreeModel(y.model, c.owned[f].page, io).model)
  {
    FreeFrameLeaves(y.pool, f, io);
    FreeKeys(y.model, c.owned[f].page, io);
    OwnedLive(c, y.model, y.model);
    hide FreeModel, FreeFrame, Counts, Knows, Waits, Grips;
    Regrip(c.owned, y.pool, y.model, c.owned - {f}, FreeFrame(y.pool, f, io).pool,
      FreeModel(y.model, c.owned[f].page, io).model, f);
  }

  // buff_flush_all

  lemma {:induction false} FlushModelElsewhere(s: Pool, m: Model, list: seq<nat>, ups: seq<bool>, p: nat)
    requires Frames(s, list) && forall i | 0 <= i < |list| :: s.metaframes[list[i]].index in m.live
    requires p in m.live && forall i | 0 <= i < |list| :: s.metaframes[list[i]].index != p
    ensures p in FlushModel(s, m, list, ups).live && FlushModel(s, m, list, ups).live[p] == m.live[p]
  {
    if list != [] {
      FlushModelElsewhere(s, m, list[..|list| - 1], ups, p);
    }
  }

  lemma {:induction false} AllUpFlush(s: Pool, list: seq<nat>, ups: seq<bool>)
    requires Frames(s, list) && AllUp(ups)
    ensures FlushList(s, list, ups) == FlushList(s, list, [])
  {
    if list != [] {
      AllUpFlush(s, list[..|list| - 1], ups);
    }
  }

  /** Pinned frames are left alone, and no frame starts to wait. */
  lemma FlushLeaves(s: Pool, list: seq<nat>, ups: seq<bool>)
    requires Frames(s, list)
    requires forall i | 0 <= i < |list| :: s.metaframes[list[i]].state == UnpinnedDirty
    ensures var r := Flush(s, list, ups);
      && r.buffer == s.buffer && |r.metaframes| == |s.metaframes|
      && forall f | 0 <= f < |s.metaframes| ::
        && r.metaframes[f].index == s.metaframes[f].index
        && (r.metaframes[f].state == s.metaframes[f].state
            || (s.metaframes[f].state == UnpinnedDirty && r.metaframes[f].state == Unpinned))
  {
    FlushStates(s, list, ups);
    hide FlushList, ReclaimList;
  }

  lemma FlushAgrees(c: Client, y: System, ups: seq<bool>, trust: bool)
    requires Sound(y) && ClientAgrees(c, y) && (trust ==> AllUp(ups))
    ensures ClientAgrees(if trust then c.(waiting := {}) else c, Flushed(y, ups))
  {
    hide Sound, Grips, Waits, Counts, Knows, Flush, FlushModel, Writeback, FlushList, AllUp;
    FlushDefined(y);
    FlushGrips(c, y, ups);
    FlushWaits(c, y, ups, trust);
    FlushCounts(c, y, ups);
  }

  lemma FlushWaits(c: Client, y: System, ups: seq<bool>, trust: bool)
    requires Sound(y) && Waits(c.waiting, y.pool) && Frames(y.pool, Writeback(y.pool)) && (trust ==> AllUp(ups))
    ensures Waits(if trust then {} else c.waiting, Flush(y.pool, Writeback(y.pool), ups))
  {
    var s, wb := y.pool, Writeback(y.pool);
    WaitingStates(s);
    hide Sound, Writeback, FlushList, ReclaimList, Waits;
    FlushLeaves(s, wb, ups);
    if trust {
      AllUpFlush(s, wb, ups);
      NothingWaits(y);
      NobodyStillWaits(s, Flush(s, wb, ups));
    } else {
      NobodyNewWaits(c.waiting, s, Flush(s, wb, ups));
    }
  }

  lemma NobodyNewWaits(waiting: set<nat>, s: Pool, r: Pool)
    requires Waits(waiting, s) && |r.metaframes| == |s.metaframes|
    requires forall f | 0 <= f < |s.metaframes| ::
      && r.metaframes[f].index == s.metaframes[f].index
      && (r.metaframes[f].state == s.metaframes[f].state || r.metaframes[f].state == Unpinned)
    ensures Waits(waiting, r)
  {
  }

  lemma NobodyStillWaits(s: Pool, r: Pool)
    requires |r.metaframes| == |s.metaframes|
    requires forall f | Held(r, f) :: IsPinned(s.metaframes[f])
    requires forall f | 0 <= f < |s.metaframes| ::
      r.metaframes[f].state == s.metaframes[f].state || r.metaframes[f].state == Unpinned
    ensures Waits({}, r)
  {
    assert forall f | 0 <= f < |r.metaframes| && r.metaframes[f].state == UnpinnedDirty :: Held(r, f);
  }

  lemma FlushCounts(c: Client, y: System, ups: seq<bool>)
    requires Counts(c, y.model) && Frames(y.pool, Writeback(y.pool))
    requires forall i | 0 <= i < |Writeback(y.pool)| :: y.pool.metaframes[Writeback(y.pool)[i]].index in y.model.live
    ensures var m' := FlushModel(y.pool, y.model, Writeback(y.pool), ups);
      Counts(c, m') && Counts(c.(waiting := {}), m')
  {
    hide Writeback, FlushModel, Frames;
    FlushModelKeepsQueue(y.pool, y.model, Writeback(y.pool), ups);
    SameSize(y.model.live, FlushModel(y.pool, y.model, Writeback(y.pool), ups).live);
  }

  lemma SameSize(live: map<nat, Page>, live': map<nat, Page>)
    requires live.Keys == live'.Keys
    ensures |live| == |live'|
  {
    assert |live| == |live.Keys| && |live'| == |live'.Keys|;
  }

  lemma FlushGrips(c: Client, y: System, ups: seq<bool>)
    requires Sound(y) && ClientAgrees(c, y) && Frames(y.pool, Writeback(y.pool))
    requires forall i | 0 <= i < |Writeback(y.pool)| :: y.pool.metaframes[Writeback(y.pool)[i]].index in y.model.live
    ensures var r := Flush(y.pool, Writeback(y.pool), ups);
      && |r.metaframes| == |r.buffer|
      && Grips(c.owned, r, FlushModel(y.pool, y.model, Writeback(y.pool), ups))
  {
    var s, wb := y.pool, Writeback(y.pool);
    WaitingStates(s);
    hide Sound, Flush, FlushModel, Writeback, Waits, Knows, Counts, Grips;
    FlushLeaves(s, wb, ups);
    forall g | g in c.owned
      ensures c.owned[g].page in FlushModel(s, y.model, wb, ups).live
      ensures FlushModel(s, y.model, wb, ups).live[c.owned[g].page] == y.model.live[c.owned[g].page]
    {
      OwnedIsSpared(c, y, wb, g, ups);
    }
    KeptGrips(c.owned, s, y.model, Flush(s, wb, ups), FlushModel(s, y.model, wb, ups));
  }

  lemma OwnedIsSpared(c: Client, y: System, wb: seq<nat>, f: nat, ups: seq<bool>)
    requires Sound(y) && ClientAgrees(c, y) && f in c.owned && Frames(y.pool, wb)
    requires forall i | 0 <= i < |wb| ::
      y.pool.metaframes[wb[i]].state == UnpinnedDirty && y.pool.metaframes[wb[i]].index in y.model.live
    ensures c.owned[f].page in FlushModel(y.pool, y.model, wb, ups).live
    ensures FlushModel(y.pool, y.model, wb, ups).live[c.owned[f].page] == y.model.live[c.owned[f].page]
  {
    OwnsApart(c, y, f);
    OthersHold(y, f);
    hide Sound, ClientAgrees, FlushModel;
    forall i | 0 <= i < |wb|
      ensures y.pool.metaframes[wb[i]].index != c.owned[f].page
    {
      assert Held(y.pool, wb[i]) && wb[i] != f;
    }
    FlushModelElsewhere(y.pool, y.model, wb, ups, c.owned[f].page);
  }

  lemma KeptGrips(owned: map<nat, Grip>, s: Pool, m: Model, s': Pool, m': Model)
    requires |s.buffer| == |s.metaframes| == |s'.metaframes| && Grips(owned, s, m) && s'.buffer == s.buffer
    requires forall f | 0 <= f < |s.metaframes| ::
      && s'.metaframes[f].index == s.metaframes[f].index
      && (s'.metaframes[f].state == s.metaframes[f].state
          || (s.metaframes[f].state == UnpinnedDirty && s'.metaframes[f].state == Unpinned))
    requires forall g | g in owned :: owned[g].page in m'.live && m'.live[owned[g].page] == m.live[owned[g].page]
    ensures Grips(owned, s', m')
  {
  }
}
