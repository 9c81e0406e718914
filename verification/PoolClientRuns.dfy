/** Runs of the buffer manager under a client that keeps to the protocol: no obligation is put
    in terms of the store. */
module PoolClientRuns {
  import opened Sequences
  import opened Words
  import opened Files
  import opened StoreInvariant
  import opened StoreRuns
  import opened StoreQueue
  import opened Pool
  import opened PoolInvariant
  import opened PoolRuns
  import opened PoolTheorems
  import opened PoolClient

  lemma CallablePins(c: Client, y: System, op: PoolOp)
    requires Sound(y) && ClientAgrees(c, y) && ClientOk(c, op)
    ensures Callable(y.pool, op)
  {
    SoundPointers(y);
    FlushDefined(y);
    hide Sound, ClientAgrees, Pointers, Writeback, Frames;
    if op.UnpinOp? || op.MarkOp? || op.WriteOp? || op.FreeFrameOp? {
      OwnsApart(c, y, op.frame);
    }
  }

  lemma AllocStep(y: System, io: nat, pinIo: nat)
    requires Sound(y) && PoolOpOk(y.pool, y.model, AllocFrameOp(io, pinIo))
    ensures PoolStep(y, AllocFrameOp(io, pinIo)) == FrameAllocated(y, io, pinIo)
    ensures FrameAllocated(y, io, pinIo).pool == AllocFrame(y.pool, io, pinIo).pool
  {
    hide Sound, AllocFrame, AllocModel, AllocContent, PoolOpOk;
  }

  lemma FreeStep(y: System, f: nat, io: nat)
    requires Sound(y) && PoolOpOk(y.pool, y.model, FreeFrameOp(f, io))
    requires f < |y.pool.metaframes| && y.pool.metaframes[f].index in y.model.live
    ensures PoolStep(y, FreeFrameOp(f, io)) == FrameFreed(y, f, io)
    ensures FrameFreed(y, f, io).pool == FreeFrame(y.pool, f, io).pool
  {
    hide Sound, FreeFrame, FreeModel, FreeContent, PoolOpOk;
  }

  lemma WriteStep(y: System, f: nat, d: Page)
    requires Sound(y) && PoolOpOk(y.pool, y.model, WriteOp(f, d)) && f < |y.pool.buffer|
    requires f < |y.pool.metaframes| && y.pool.metaframes[f].index in y.model.live
    ensures PoolStep(y, WriteOp(f, d)) == Written(y, f, d)
    ensures Written(y, f, d).pool == WriteFrame(y.pool, f, d)
  {
    hide Sound, WriteFrame, PoolOpOk;
  }

  /** The call is one that PoolOpOk allows, the pool makes the step that the store-level view
      predicts, and what the client learns from the answer is true. */
  ghost predicate Follows(c: Client, y: System, op: PoolOp, trust: bool)
    requires Sound(y) && ClientOk(c, op)
  {
    && Callable(y.pool, op) && PoolOpOk(y.pool, y.model, op)
    && Call(y.pool, op).pool == PoolStep(y, op).pool
    && ClientAgrees(ClientStep(c, op, Call(y.pool, op).reply, trust), PoolStep(y, op))
  }

  lemma ClientPin(c: Client, y: System, index: int, io: nat, trust: bool)
    requires Sound(y) && ClientAgrees(c, y) && ClientOk(c, PinOp(index, io)) && Callable(y.pool, PinOp(index, io))
    ensures Follows(c, y, PinOp(index, io), trust)
  {
    hide Sound, ClientAgrees, Pointers, Frames, Writeback, Pin, PoolOpOk, ClientStep;
    PinAllowed(c, y, index, io);
    PinAgrees(c, y, index, io, trust);
  }

  lemma ClientUnpin(c: Client, y: System, f: nat, trust: bool)
    requires Sound(y) && ClientAgrees(c, y) && ClientOk(c, UnpinOp(f)) && Callable(y.pool, UnpinOp(f))
    ensures Follows(c, y, UnpinOp(f), trust)
  {
    hide Sound, ClientAgrees, Pointers, Frames, Writeback, Unpin, PoolOpOk;
    UnpinAllowed(c, y, f);
    UnpinAgrees(c, y, f);
  }

  lemma ClientMark(c: Client, y: System, f: nat, trust: bool)
    requires Sound(y) && ClientAgrees(c, y) && ClientOk(c, MarkOp(f)) && Callable(y.pool, MarkOp(f))
    ensures Follows(c, y, MarkOp(f), trust)
  {
    hide Sound, ClientAgrees, Pointers, Frames, Writeback, Mark;
    MarkAgrees(c, y, f);
  }

  lemma ClientWrite(c: Client, y: System, f: nat, d: Page, trust: bool)
    requires Sound(y) && ClientAgrees(c, y) && ClientOk(c, WriteOp(f, d)) && Callable(y.pool, WriteOp(f, d))
    ensures Follows(c, y, WriteOp(f, d), trust)
  {
    hide Sound, ClientAgrees, Pointers, Frames, Writeback, PoolStep, Written, WriteFrame;
    OwnsApart(c, y, f);
    WriteAgrees(c, y, f, d);
    WriteStep(y, f, d);
  }

  lemma ClientAlloc(c: Client, y: System, io: nat, pinIo: nat, trust: bool)
    requires Sound(y) && ClientAgrees(c, y) && ClientOk(c, AllocFrameOp(io, pinIo))
    requires Callable(y.pool, AllocFrameOp(io, pinIo))
    ensures Follows(c, y, AllocFrameOp(io, pinIo), trust)
  {
    hide Sound, ClientAgrees, Pointers, Frames, Writeback, AllocFrame, AllocOk, PoolStep, FrameAllocated;
    AllocAllowed(c, y, io, pinIo);
    AllocAgrees(c, y, io, pinIo);
    AllocStep(y, io, pinIo);
  }

  lemma ClientFree(c: Client, y: System, f: nat, io: nat, trust: bool)
    requires Sound(y) && ClientAgrees(c, y) && ClientOk(c, FreeFrameOp(f, io)) && Callable(y.pool, FreeFrameOp(f, io))
    ensures Follows(c, y, FreeFrameOp(f, io), trust)
  {
    hide Sound, ClientAgrees, Pointers, Frames, Writeback, FreeFrame, PoolStep, FrameFreed;
    OwnsApart(c, y, f);
    FreeAgrees(c, y, f, io);
    FreeStep(y, f, io);
  }

  lemma ClientFlush(c: Client, y: System, ups: seq<bool>, trust: bool)
    requires Sound(y) && ClientAgrees(c, y) && ClientOk(c, FlushOp(ups)) && Callable(y.pool, FlushOp(ups))
    requires Deserved(FlushOp(ups), trust)
    ensures Follows(c, y, FlushOp(ups), trust)
  {
    hide Sound, ClientAgrees, Pointers, Frames, Writeback, Flush, Flushed, PoolStep, PoolOpOk;
    FlushAgrees(c, y, ups, trust);
    FlushedIs(y, ups);
    FlushCall(y, ups);
  }

  /** A client that keeps to the protocol never breaks an obligation that PoolOpOk puts in terms
      of the store, and what it knows stays true. */
  lemma ClientStepAgrees(c: Client, y: System, op: PoolOp, trust: bool)
    requires Sound(y) && ClientAgrees(c, y) && ClientOk(c, op) && Deserved(op, trust)
    ensures Follows(c, y, op, trust)
  {
    hide Sound, ClientAgrees, Follows, Callable, ClientOk;
    CallablePins(c, y, op);
    match op {
      case PinOp(index, io) => ClientPin(c, y, index, io, trust);
      case UnpinOp(f) => ClientUnpin(c, y, f, trust);
      case MarkOp(f) => ClientMark(c, y, f, trust);
      case WriteOp(f, d) => ClientWrite(c, y, f, d, trust);
      case AllocFrameOp(io, pinIo) => ClientAlloc(c, y, io, pinIo, trust);
      case FreeFrameOp(f, io) => ClientFree(c, y, f, io, trust);
      case FlushOp(ups) => ClientFlush(c, y, ups, trust);
    }
  }

  /** A pool and its client. */
  datatype Session = Session(pool: Pool, client: Client)

  ghost function After(s: Session, op: PoolOp, trust: bool): Session
    requires ClientOk(s.client, op)
  {
    if Callable(s.pool, op) then
      var called := Call(s.pool, op);
      Session(called.pool, ClientStep(s.client, op, called.reply, trust))
    else s
  }

  /** The client keeps to the protocol, as far as it can tell, at every call; trusted holds the
      places of the flushes it trusts. */
  ghost predicate Obeys(s: Session, ops: seq<PoolOp>, trusted: set<nat>)
    decreases |ops|, 0
  {
    ops == [] ||
    (var n := |ops| - 1; Obeys(s, ops[..n], trusted) && ClientOk(Serve(s, ops[..n], trusted).client, ops[n]))
  }

  ghost function Serve(s: Session, ops: seq<PoolOp>, trusted: set<nat>): Session
    requires Obeys(s, ops, trusted)
    decreases |ops|, 1
  {
    if ops == [] then s
    else var n := |ops| - 1; After(Serve(s, ops[..n], trusted), ops[n], n in trusted)
  }

  /** What the machine owes a client that trusts; a client that trusts no flush is owed nothing. */
  predicate AllDeserved(ops: seq<PoolOp>, trusted: set<nat>) {
    forall i | 0 <= i < |ops| :: Deserved(ops[i], i in trusted)
  }

  /** A run that a client can answer for is a run that meets every obligation on the store. */
  lemma {:induction false} ServeIsPoolRun(c: Client, y: System, ops: seq<PoolOp>, trusted: set<nat>)
    requires Sound(y) && ClientAgrees(c, y) && Obeys(Session(y.pool, c), ops, trusted) && AllDeserved(ops, trusted)
    ensures PoolRunOk(y, ops)
    ensures Serve(Session(y.pool, c), ops, trusted).pool == PoolRun(y, ops).pool
    ensures ClientAgrees(Serve(Session(y.pool, c), ops, trusted).client, PoolRun(y, ops))
  {
    hide Sound, ClientAgrees, ClientOk, PoolStep, PoolOpOk, Call, ClientStep, Callable, Deserved;
    if ops != [] {
      var n := |ops| - 1;
      ServeIsPoolRun(c, y, ops[..n], trusted);
      ClientStepAgrees(Serve(Session(y.pool, c), ops[..n], trusted).client, PoolRun(y, ops[..n]), ops[n], n in trusted);
    }
  }

  lemma NewcomerAgrees(frames: nat, file: File, m: Model)
    requires Means(file, m) && m.loose == {}
    ensures ClientAgrees(Newcomer(m), System(Created(frames, file), m, m.live))
  {
    PagesAreConserved(m);
    SameSize(m.live, m.live);
    hide Chained, Contents, Partition;
  }

  /** The bytes mean m, m agrees with what the client knows, and the links from the head on disk
      pass exactly the free pages. */
  ghost predicate StoreFits(c: Client, f: File, m: Model) {
    && Means(f, m) && Counts(c, m)
    && Walk(f, Head(PageAt(f, 0)), |m.queue|) == Offsets(m.queue)
    && (c.settled ==> Walk(f, Head(PageAt(f, 0)), m.size) == Offsets(m.queue))
  }

  lemma Fits(c: Client, f: File, m: Model)
    requires Means(f, m) && Counts(c, m)
    ensures StoreFits(c, f, m)
  {
    hide Means, Walk, PageAt, Head, Offsets, NoDup;
    WalkReachesTail(f, m);
    if c.settled {
      WalkIsQueue(f, m, m.size);
    }
  }

  /** Any client that keeps to the protocol, on a pool just created over any store in order,
      whatever reads and writes fail: every call stays inside the arrays, and after every run the
      bytes on disk mean a store in which the client's pages are live, and no more than it may
      have lost besides; each frame in use holds a live page that no other one holds; and a
      flush spares the metadata page and every free page, so that the links from the head on
      disk pass the same free pages before and after. */
  lemma ClientsAreSafe(frames: nat, file: File, m: Model, ops: seq<PoolOp>, trusted: set<nat>,
                       op: PoolOp, ups: seq<bool>)
    requires Means(file, m) && m.loose == {} && 0 < frames && AllDeserved(ops, trusted)
    requires Obeys(Session(Created(frames, file), Newcomer(m)), ops, trusted)
    ensures var now := Serve(Session(Created(frames, file), Newcomer(m)), ops, trusted);
      var s, c := now.pool, now.client;
      && (ClientOk(c, op) ==> Callable(s, op))
      && Frames(s, Writeback(s))
      && (forall f, g | Held(s, f) && Held(s, g) && f != g :: s.metaframes[f].index != s.metaframes[g].index)
      && exists m', m'' :: StoreFits(c, s.file, m') && StoreFits(c, Flush(s, Writeback(s), ups).file, m'')
           && m''.queue == m'.queue && m''.live.Keys == m'.live.Keys
           && (forall f | Held(s, f) :: s.metaframes[f].index in m'.live && s.metaframes[f].index !in m'.queue)
           && (forall q | q == 0 || q in m'.queue ::
                 PageAt(Flush(s, Writeback(s), ups).file, q) == PageAt(s.file, q))
  {
    hide Sound, Grips, Waits, Knows, Obeys, Serve, PoolRun, PoolRunOk, Chained, Contents, Partition, MetaIs;
    hide ClientOk, Callable, Flush, Writeback, Created, Newcomer, AllDeserved, StoreFits, Settled;
    var y := System(Created(frames, file), m, m.live);
    CreatedIsSound(frames, file, m);
    NewcomerAgrees(frames, file, m);
    ServeIsPoolRun(Newcomer(m), y, ops, trusted);
    CrossLayerSafety(y, ops, ups);
    var c, z := Serve(Session(y.pool, Newcomer(m)), ops, trusted).client, PoolRun(y, ops);
    if ClientOk(c, op) {
      CallablePins(c, z, op);
    }
    var m'' :| Means(Flush(z.pool, Writeback(z.pool), ups).file, m'')
      && m''.queue == z.model.queue && m''.live.Keys == z.model.live.Keys
      && m''.size == z.model.size && m''.loose == z.model.loose;
    SameCounts(c, z.model, m'');
    Fits(c, z.pool.file, z.model);
    Fits(c, Flush(z.pool, Writeback(z.pool), ups).file, m'');
  }

  lemma SameCounts(c: Client, m: Model, m': Model)
    requires Counts(c, m) && m'.queue == m.queue && m'.live.Keys == m.live.Keys
    requires m'.size == m.size && m'.loose == m.loose
    ensures Counts(c, m')
  {
    SameSize(m.live, m'.live);
  }

  /** Such a client reads what it last wrote: a frame it has pinned shows the bytes it knows for
      its page, through whichever frames and however many flushes they went, and after a flush
      that meets no write error the disk holds the bytes of every page it has not pinned. */
  lemma ClientsReadTheirWrites(frames: nat, file: File, m: Model, ops: seq<PoolOp>, trusted: set<nat>, p: nat)
    requires Means(file, m) && m.loose == {} && 0 < frames && AllDeserved(ops, trusted)
    requires Obeys(Session(Created(frames, file), Newcomer(m)), ops, trusted)
    requires p in Serve(Session(Created(frames, file), Newcomer(m)), ops, trusted).client.known
    ensures var now := Serve(Session(Created(frames, file), Newcomer(m)), ops, trusted);
      var s, c := now.pool, now.client;
      && |s.buffer| == |s.metaframes| && Frames(s, Writeback(s))
      && (forall f | f in c.owned && c.owned[f].page == p :: f < |s.buffer| && s.buffer[f] == c.known[p])
      && ((forall f | f in c.owned :: c.owned[f].page != p) ==>
            PageAt(Flush(s, Writeback(s), []).file, p) == c.known[p])
  {
    hide Sound, ClientAgrees, Obeys, Serve, PoolRun, PoolRunOk, Chained, Contents, Partition, MetaIs;
    hide Flush, Writeback, Created, Newcomer, PageAt;
    var y := System(Created(frames, file), m, m.live);
    CreatedIsSound(frames, file, m);
    NewcomerAgrees(frames, file, m);
    ServeIsPoolRun(Newcomer(m), y, ops, trusted);
    KnownShows(Serve(Session(y.pool, Newcomer(m)), ops, trusted).client, PoolRun(y, ops), p);
  }

  lemma KnownShows(c: Client, y: System, p: nat)
    requires Sound(y) && ClientAgrees(c, y) && p in c.known
    ensures var s := y.pool;
      && |s.buffer| == |s.metaframes| && Frames(s, Writeback(s))
      && (forall f | f in c.owned && c.owned[f].page == p :: f < |s.buffer| && s.buffer[f] == c.known[p])
      && ((forall f | f in c.owned :: c.owned[f].page != p) ==>
            PageAt(Flush(s, Writeback(s), []).file, p) == c.known[p])
  {
    hide Sound, Waits, Counts, Flush, Writeback, PageAt, Frames;
    FlushDefined(y);
    forall f | f in c.owned && c.owned[f].page == p
      ensures f < |y.pool.buffer| && y.pool.buffer[f] == c.known[p]
    {
      OwnsApart(c, y, f);
      HeldShows(y, f);
    }
    if forall f | f in c.owned :: c.owned[f].page != p {
      FlushIsDurable(y, p);
    }
  }
}
