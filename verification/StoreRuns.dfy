/** Whole runs of calls on one store, failing calls included. */
module StoreRuns {
  import opened Wrappers
  import opened Sequences
  import opened Words
  import opened Files
  import opened Store
  import opened StoreInvariant

  datatype Op =
    | AllocOp(src: Option<Page>, io: nat)
    | FreeOp(page: int, io: nat)
    | GetOp(page: int, dest: Page, io: nat)
    | PutOp(page: int, data: Page, io: nat)

  datatype Reply =
    | Allocated(status: Status, index: int)
    | Done(status: Status)
    | Fetched(status: Status, page: Page)

  datatype Ran = Ran(file: File, replies: seq<Reply>)
  datatype RanModel = RanModel(model: Model, replies: seq<Reply>)

  // ----- on the bytes -----

  function Step(f: File, op: Op): (File, Reply) {
    match op
    case AllocOp(src, io) => var r := Alloc(f, src, io); (r.file, Allocated(r.status, r.index))
    case FreeOp(p, io) => var r := Free(f, p, io); (r.file, Done(r.status))
    case GetOp(p, dest, io) => var r := Get(f, dest, p, io); (f, Fetched(r.status, r.page))
    case PutOp(p, src, io) => var r := Put(f, src, p, io); (r.file, Done(r.status))
  }

  function Run(f: File, ops: seq<Op>): (r: Ran)
    ensures |r.replies| == |ops|
  {
    if ops == [] then Ran(f, [])
    else
      var before := Run(f, ops[..|ops| - 1]);
      var (file, reply) := Step(before.file, ops[|ops| - 1]);
      Ran(file, before.replies + [reply])
  }

  // ----- on the meaning -----

  /** What the caller and the machine owe the store: only live pages are named (or the
      metadata page, which is refused), and no alloc_page runs into one of its hazards. */
  predicate OpOk(m: Model, op: Op) {
    match op
    case AllocOp(src, io) => AllocOk(m, src, io)
    case FreeOp(p, _) => p == 0 || p in m.live
    case GetOp(p, _, _) => p <= 0 || p in m.live
    case PutOp(p, _, _) => p <= 0 || p in m.live
  }

  function Refusal(p: int): Status {
    if p == 0 then MetaPage else BadSeek
  }

  function StepModel(m: Model, op: Op): (Model, Reply)
    requires OpOk(m, op)
  {
    match op
    case AllocOp(src, io) => var o := AllocModel(m, src, io); (o.model, Allocated(o.status, o.index))
    case FreeOp(p, io) =>
      if p !in m.live then (m, Done(MetaPage)) else var o := FreeModel(m, p, io); (o.model, Done(o.status))
    case GetOp(p, dest, io) =>
      if p !in m.live then (m, Fetched(Refusal(p), dest))
      else (m, if io < 1 then Fetched(BadRead, dest) else Fetched(Ok, m.live[p]))
    case PutOp(p, src, io) =>
      if p !in m.live then (m, Done(Refusal(p))) else var o := PutModel(m, src, p, io); (o.model, Done(o.status))
  }

  predicate RunOk(m: Model, ops: seq<Op>)
    decreases |ops|, 0
  {
    ops == [] ||
    (RunOk(m, ops[..|ops| - 1]) && OpOk(RunModel(m, ops[..|ops| - 1]).model, ops[|ops| - 1]))
  }

  function RunModel(m: Model, ops: seq<Op>): (r: RanModel)
    requires RunOk(m, ops)
    ensures |r.replies| == |ops|
    decreases |ops|, 1
  {
    if ops == [] then RanModel(m, [])
    else
      var before := RunModel(m, ops[..|ops| - 1]);
      var (model, reply) := StepModel(before.model, ops[|ops| - 1]);
      RanModel(model, before.replies + [reply])
  }

  // ----- refinement -----

  lemma StepRefines(f: File, m: Model, op: Op)
    requires Means(f, m) && OpOk(m, op)
    ensures Means(Step(f, op).0, StepModel(m, op).0)
    ensures Step(f, op).1 == StepModel(m, op).1
  {
    hide Means, Alloc, Free, AllocModel, FreeModel, AllocOk, WriteAt;
    assert 0 !in m.live by { LiveIsPositive(f, m); }
    match op {
      case AllocOp(src, io) => AllocMeans(f, m, src, io);
      case FreeOp(p, io) => if p in m.live { FreeMeans(f, m, p, io); } else { FreeMetaPage(f, io); }
      case GetOp(p, dest, io) => if p in m.live { GetMeans(f, m, dest, p, io); }
      case PutOp(p, src, io) => if p in m.live { PutMeans(f, m, src, p, io); }
    }
  }

  lemma LiveIsPositive(f: File, m: Model)
    requires Means(f, m)
    ensures 0 !in m.live
  {
  }

  lemma FreeMetaPage(f: File, io: nat)
    ensures Free(f, 0, io) == FileResult(f, MetaPage)
  {
  }

  /** Over any run, the bytes answer every call as their meaning does. */
  lemma {:induction false} RunRefines(f: File, m: Model, ops: seq<Op>)
    requires Means(f, m) && RunOk(m, ops)
    ensures Means(Run(f, ops).file, RunModel(m, ops).model)
    ensures Run(f, ops).replies == RunModel(m, ops).replies
  {
    if ops != [] {
      var init := ops[..|ops| - 1];
      hide Means, Step, StepModel, OpOk;
      RunRefines(f, m, init);
      StepRefines(Run(f, init).file, RunModel(m, init).model, ops[|ops| - 1]);
    }
  }

  /** Stores with the same meaning cannot be told apart. */
  lemma SameMeaningSameReplies(f: File, g: File, m: Model, ops: seq<Op>)
    requires Means(f, m) && Means(g, m) && RunOk(m, ops)
    ensures Run(f, ops).replies == Run(g, ops).replies
  {
    RunRefines(f, m, ops);
    RunRefines(g, m, ops);
  }

  /** A failed alloc_page that had to grow the store might as well not have been called. */
  lemma FailedGrowthIsInvisible(f: File, m: Model, src: Option<Page>, io: nat, ops: seq<Op>)
    requires Means(f, m) && m.queue == [] && Alloc(f, src, io).status != Ok && RunOk(m, ops)
    ensures Means(Alloc(f, src, io).file, m)
    ensures Run(Alloc(f, src, io).file, ops).replies == Run(f, ops).replies
  {
    hide Means, Alloc;
    AllocMeans(f, m, src, io);
    SameMeaningSameReplies(f, Alloc(f, src, io).file, m, ops);
  }

  // ----- get_page returns what was last supplied -----

  datatype Supply = Nothing | Unknown | Bytes(page: Page)

  /** How one call and its answer bear on what the caller has supplied for page p. */
  function Supplied(op: Op, reply: Reply, p: nat, earlier: Supply): Supply {
    match (op, reply)
    case (AllocOp(src, _), Allocated(Ok, index)) =>
      if index != p then earlier else if src.Some? then Bytes(src.value) else Unknown
    case (FreeOp(q, _), Done(status)) =>
      if q != p then earlier else if status == Ok then Nothing else if status == BadWrite then Unknown else earlier
    case (PutOp(q, data, _), Done(Ok)) =>
      if q != p then earlier else Bytes(data)
    case _ => earlier
  }

  /** What the caller last supplied for page p since p was last handed out, read off the
      calls and the answers alone. */
  function LastSupplied(ops: seq<Op>, replies: seq<Reply>, p: nat): Supply
    requires |ops| == |replies|
  {
    if ops == [] then Nothing
    else
      var n := |ops| - 1;
      Supplied(ops[n], replies[n], p, LastSupplied(ops[..n], replies[..n], p))
  }

  ghost predicate Agrees(m: Model, p: nat, s: Supply) {
    match s
    case Nothing => p !in m.live
    case Unknown => p in m.live
    case Bytes(d) => p in m.live && m.live[p] == d
  }

  lemma StepAgrees(m: Model, op: Op, p: nat, s: Supply)
    requires OpOk(m, op) && Agrees(m, p, s)
    ensures Agrees(StepModel(m, op).0, p, Supplied(op, StepModel(m, op).1, p, s))
  {
    hide AllocOk, Writable, FreeImage;
  }

  lemma {:induction false} RunAgrees(m: Model, ops: seq<Op>, p: nat)
    requires RunOk(m, ops) && p !in m.live
    ensures Agrees(RunModel(m, ops).model, p, LastSupplied(ops, RunModel(m, ops).replies, p))
  {
    if ops != [] {
      hide StepModel, OpOk, Supplied, Agrees;
      var n := |ops| - 1;
      RunAgrees(m, ops[..n], p);
      var before := RunModel(m, ops[..n]);
      StepAgrees(before.model, ops[n], p, LastSupplied(ops[..n], before.replies, p));
      assert RunModel(m, ops).replies[..n] == before.replies;
    }
  }

  /** From a fresh store, over any run: a page whose last supplied bytes are known reads back
      as those bytes, whatever links were written into freed pages meanwhile. */
  lemma ReadsWhatWasSupplied(f: File, ops: seq<Op>, p: nat, dest: Page)
    requires Means(f, FRESH) && RunOk(FRESH, ops)
    requires LastSupplied(ops, Run(f, ops).replies, p).Bytes?
    ensures Get(Run(f, ops).file, dest, p, 1) == ReadResult(Ok, LastSupplied(ops, Run(f, ops).replies, p).page)
  {
    hide Means, Get;
    RunRefines(f, FRESH, ops);
    RunAgrees(FRESH, ops, p);
    GetMeans(Run(f, ops).file, RunModel(FRESH, ops).model, dest, p, 1);
  }

  // ----- the store grows no more than it must -----

  function Max(a: int, b: int): int {
    if a < b then b else a
  }

  /** The most pages that were live at once. */
  function Peak(m: Model, ops: seq<Op>): int
    requires RunOk(m, ops)
  {
    if ops == [] then |m.live| else Max(Peak(m, ops[..|ops| - 1]), |RunModel(m, ops).model.live|)
  }

  /** No page is ever lost: the free and the live pages together are all there are. */
  lemma PagesAreConserved(m: Model)
    requires Partition(m) && 1 <= m.size
    ensures m.size - 1 == |m.queue| + |m.live|
  {
    SizeOfElements(m.queue);
    var free := Elements(m.queue);
    CountSplit(m.size, free, m.live.Keys);
  }

  /** A call grows the store only when every page is live. */
  lemma StepGrowth(f: File, m: Model, op: Op)
    requires Means(f, m) && OpOk(m, op)
    ensures var m' := StepModel(m, op).0;
      m'.size - 1 == Max(m.size - 1, |m'.live|)
  {
    hide WriteAt, PageAt, FreeImage, Chained, MetaIs;
    StepRefines(f, m, op);
    PagesAreConserved(m);
    PagesAreConserved(StepModel(m, op).0);
  }

  lemma {:induction false} PeakGrowth(f: File, m: Model, ops: seq<Op>)
    requires Means(f, m) && m.queue == [] && RunOk(m, ops)
    ensures RunModel(m, ops).model.size - 1 == Peak(m, ops)
  {
    if ops == [] {
      PagesAreConserved(m);
    } else {
      hide Means, StepModel, OpOk;
      var init := ops[..|ops| - 1];
      PeakGrowth(f, m, init);
      RunRefines(f, m, init);
      StepGrowth(Run(f, init).file, RunModel(m, init).model, ops[|ops| - 1]);
    }
  }

  /** From a fresh store, the size recorded on disk is always one more than the peak number
      of live pages so far. */
  lemma GrowthIsOptimal(f: File, ops: seq<Op>)
    requires Means(f, FRESH) && RunOk(FRESH, ops)
    ensures Size(PageAt(Run(f, ops).file, 0)) - 1 == Peak(FRESH, ops)
  {
    PeakGrowth(f, FRESH, ops);
    RunRefines(f, FRESH, ops);
  }
}
