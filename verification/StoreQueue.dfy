/** The free list is a first-in first-out queue, and survives a free_page that fails. */
module StoreQueue {
  import opened Wrappers
  import opened Sequences
  import opened Words
  import opened Files
  import opened Store
  import opened StoreInvariant
  import opened StoreRuns

  /** As many reads and writes as the longest call makes. */
  const ALL_IO: nat := 4

  function Frees(ps: seq<nat>): (ops: seq<Op>)
    ensures |ops| == |ps|
  {
    if ps == [] then [] else Frees(ps[..|ps| - 1]) + [FreeOp(ps[|ps| - 1], ALL_IO)]
  }

  function Allocs(ds: seq<Page>): (ops: seq<Op>)
    ensures |ops| == |ds|
  {
    if ds == [] then [] else Allocs(ds[..|ds| - 1]) + [AllocOp(Some(ds[|ds| - 1]), ALL_IO)]
  }

  /** Every free page lies where the file can be written. */
  ghost predicate Addressable(queue: seq<nat>) {
    forall p | p in queue :: Writable(IndexToOffset(p))
  }

  lemma QueueIsAddressable(f: File, m: Model)
    requires Means(f, m)
    ensures Addressable(m.queue)
  {
  }

  /** One more call at the end of a run. */
  lemma OneMore(m: Model, ops: seq<Op>, op: Op)
    requires RunOk(m, ops) && OpOk(RunModel(m, ops).model, op)
    ensures RunOk(m, ops + [op])
    ensures var r := RunModel(m, ops); var (m', reply) := StepModel(r.model, op);
      RunModel(m, ops + [op]) == RanModel(m', r.replies + [reply])
  {
    hide OpOk, StepModel;
    assert (ops + [op])[..|ops|] == ops;
  }

  /** What n frees leave of the loose pages: the old tail is written anew. */
  function StillLoose(m: Model, n: nat): set<nat> {
    if n == 0 || m.queue == [] then m.loose else m.loose - {m.queue[|m.queue| - 1]}
  }

  /** The model after the pages ps have been freed. */
  function Freed(m: Model, ps: seq<nat>): Model {
    m.(queue := m.queue + ps, live := m.live - Elements(ps), loose := StillLoose(m, |ps|))
  }

  lemma {:induction false} FreesModel(m: Model, ps: seq<nat>)
    requires NoDup(ps) && (forall p | p in ps :: p in m.live && p !in m.loose)
    requires forall p | p in m.loose :: p in m.queue
    ensures RunOk(m, Frees(ps))
    ensures RunModel(m, Frees(ps)).model == Freed(m, ps)
  {
    hide OpOk, StepModel, NoDup, Freed, Pushed;
    if ps == [] {
      NoneFreed(m);
    } else {
      var n := |ps| - 1;
      InitNoDup(ps);
      FreesModel(m, ps[..n]);
      OneFreed(m, ps);
      FreeOnce(Freed(m, ps[..n]), ps[n]);
      OneMore(m, Frees(ps[..n]), FreeOp(ps[n], ALL_IO));
    }
  }

  lemma NoneFreed(m: Model)
    ensures Freed(m, []) == m
  {
    assert m.queue + [] == m.queue && m.live - Elements([]) == m.live;
  }

  lemma OneFreed(m: Model, ps: seq<nat>)
    requires ps != [] && NoDup(ps) && (forall p | p in ps :: p in m.live && p !in m.loose)
    requires forall p | p in m.loose :: p in m.queue
    ensures var n := |ps| - 1; var before := Freed(m, ps[..n]);
      ps[n] in before.live && Pushed(before, ps[n]) == Freed(m, ps)
  {
    var n := |ps| - 1;
    var p, before := ps[n], Freed(m, ps[..n]);
    assert p in ps && p !in ps[..n];
    assert before.queue + [p] == m.queue + ps;
    assert before.live - {p} == m.live - Elements(ps);
    LooseAfter(m, ps, before);
  }

  lemma FreeOnce(m: Model, p: nat)
    requires p in m.live
    ensures OpOk(m, FreeOp(p, ALL_IO)) && StepModel(m, FreeOp(p, ALL_IO)).0 == Pushed(m, p)
  {
  }

  lemma LooseAfter(m: Model, ps: seq<nat>, before: Model)
    requires ps != [] && before.queue == m.queue + ps[..|ps| - 1] && before.loose == StillLoose(m, |ps| - 1)
    requires (forall p | p in ps :: p !in m.loose) && forall p | p in m.loose :: p in m.queue
    ensures Pushed(before, ps[|ps| - 1]).loose == StillLoose(m, |ps|)
  {
    var n := |ps| - 1;
    if n > 0 {
      assert ps[n - 1] in ps && before.queue[|before.queue| - 1] == ps[n - 1];
    }
  }

  lemma PopFront(m: Model, d: Page)
    requires Addressable(m.queue) && m.queue != [] && m.queue[0] !in m.loose
    ensures OpOk(m, AllocOp(Some(d), ALL_IO))
    ensures StepModel(m, AllocOp(Some(d), ALL_IO)) == (Pop(m, Some(d)), Allocated(Ok, m.queue[0]))
  {
    hide FreeImage;
    assert m.queue[0] in m.queue;
  }

  lemma {:induction false} AllocsModel(m: Model, ds: seq<Page>)
    requires Addressable(m.queue) && |ds| <= |m.queue| && forall i | 0 <= i < |ds| :: m.queue[i] !in m.loose
    ensures RunOk(m, Allocs(ds))
    ensures var r := RunModel(m, Allocs(ds));
      && r.model.queue == m.queue[|ds|..] && r.model.loose == m.loose && r.model.size == m.size
      && (forall p | p in m.live :: p in r.model.live)
      && forall i | 0 <= i < |ds| :: r.replies[i] == Allocated(Ok, m.queue[i])
  {
    if ds != [] {
      hide OpOk, StepModel;
      var n := |ds| - 1;
      AllocsModel(m, ds[..n]);
      var before := RunModel(m, Allocs(ds[..n])).model;
      forall p | p in before.queue
        ensures p in m.queue
      {
      }
      PopFront(before, ds[n]);
      OneMore(m, Allocs(ds[..n]), AllocOp(Some(ds[n]), ALL_IO));
    }
  }

  /** Frees, then allocations: the pages that were queued already come out first, then the
      freed ones in the order they were freed. */
  lemma FirstFreedFirstReused(f: File, m: Model, ps: seq<nat>, ds: seq<Page>)
    requires Means(f, m) && m.loose == {}
    requires NoDup(ps) && forall p | p in ps :: p in m.live
    requires |ds| <= |m.queue| + |ps|
    ensures var replies := Run(Run(f, Frees(ps)).file, Allocs(ds)).replies;
      forall i | 0 <= i < |ds| :: replies[i] == Allocated(Ok, (m.queue + ps)[i])
  {
    hide Means;
    FreesModel(m, ps);
    RunRefines(f, m, Frees(ps));
    var mid, f1 := RunModel(m, Frees(ps)).model, Run(f, Frees(ps)).file;
    QueueIsAddressable(f1, mid);
    AllocsModel(mid, ds);
    RunRefines(f1, mid, Allocs(ds));
  }

  // ----- the chain in the bytes -----

  /** The word that alloc_page reads at a byte offset. */
  function WordAt(f: File, off: int): int {
    if Readable(f, off, WORDSIZE) then DecodeWord(f[off..off + WORDSIZE]) else EMPTY_LIST
  }

  /** Following links through the bytes from the byte offset off, for at most fuel steps. */
  function Walk(f: File, off: int, fuel: nat): seq<int>
    decreases fuel
  {
    if off == EMPTY_LIST || fuel == 0 then [] else [off] + Walk(f, WordAt(f, off), fuel - 1)
  }

  function Offsets(queue: seq<nat>): (offs: seq<int>)
    ensures |offs| == |queue| && forall i | 0 <= i < |queue| :: offs[i] == IndexToOffset(queue[i])
  {
    seq(|queue|, i requires 0 <= i < |queue| => IndexToOffset(queue[i]))
  }

  /** Every page of the queue lies in the file. */
  ghost predicate InFile(f: File, queue: seq<nat>) {
    |f| <= MAX_FILE && forall i | 0 <= i < |queue| :: (queue[i] + 1) * PAGESIZE <= |f|
  }

  /** The walk along a chain gives the chain, and with every link in place ends by itself; with
      the last link unknown it still reaches the last page. */
  lemma {:induction false} WalkChain(f: File, queue: seq<nat>, loose: set<nat>, fuel: nat)
    requires InFile(f, queue) && Chained(f, queue, loose) && OnlyLast(queue, loose, fuel)
    ensures Walk(f, HeadWord(queue), fuel) == Offsets(queue)
    decreases fuel
  {
    hide PageAt, FreeImage, WordAt, InFile, Chained, Offsets;
    if queue != [] {
      var rest := queue[1..];
      ChainedRest(f, queue, loose);
      if queue[0] !in loose {
        FirstWord(f, queue, loose);
      }
      WalkChain(f, rest, loose, fuel - 1);
      OffsetsCons(queue);
    }
  }

  /** No page but the last is loose, and if that one is, the walk is to stop there. */
  ghost predicate OnlyLast(queue: seq<nat>, loose: set<nat>, fuel: nat) {
    |queue| <= fuel && forall i | 0 <= i < |queue| && queue[i] in loose :: i == |queue| - 1 && fuel == |queue|
  }

  lemma OffsetsCons(queue: seq<nat>)
    requires queue != []
    ensures Offsets(queue) == [IndexToOffset(queue[0])] + Offsets(queue[1..])
  {
  }

  lemma ChainedRest(f: File, queue: seq<nat>, loose: set<nat>)
    requires queue != [] && InFile(f, queue) && Chained(f, queue, loose)
    ensures InFile(f, queue[1..]) && Chained(f, queue[1..], loose)
  {
    hide PageAt, FreeImage;
    var rest := queue[1..];
    forall i | 0 <= i < |rest| && rest[i] !in loose
      ensures PageAt(f, rest[i]) == FreeImage(NextWord(rest, i))
    {
      assert rest[i] == queue[i + 1] && NextWord(rest, i) == NextWord(queue, i + 1);
    }
  }

  lemma FirstWord(f: File, queue: seq<nat>, loose: set<nat>)
    requires InFile(f, queue) && Chained(f, queue, loose) && queue != [] && queue[0] !in loose
    ensures WordAt(f, IndexToOffset(queue[0])) == HeadWord(queue[1..])
  {
    ReadLink(f, queue[0]);
    LinkOfFreeImage(NextWord(queue, 0));
    hide PageAt, Field, FreeImage;
  }

  lemma QueueInFile(f: File, m: Model)
    requires Body(f, m)
    ensures InFile(f, m.queue)
  {
    assert forall i | 0 <= i < |m.queue| :: m.queue[i] in m.queue;
  }

  /** In a store with no loose page the links alone, followed from the head on disk, give the
      queue: the walk stops by itself, meets no page twice, keeps to the starts of pages 1 to
      size - 1, and its last stop is the tail on disk. */
  lemma WalkIsQueue(f: File, m: Model, fuel: nat)
    requires Means(f, m) && m.loose == {} && m.size <= fuel + 1
    ensures var walk := Walk(f, Head(PageAt(f, 0)), fuel);
      && walk == Offsets(m.queue) && NoDup(walk)
      && (forall i | 0 <= i < |walk| :: walk[i] % PAGESIZE == 0 && 0 < walk[i] / PAGESIZE < m.size)
      && (Tail(PageAt(f, 0)) == if walk == [] then EMPTY_LIST else walk[|walk| - 1])
  {
    PagesAreConserved(m);
    QueueInFile(f, m);
    WalkChain(f, m.queue, m.loose, fuel);
    OffsetsOfQueue(m);
    hide Walk, PageAt, Field, NoDup, Partition, Chained, Contents;
  }

  lemma OffsetsOfQueue(m: Model)
    requires Partition(m)
    ensures NoDup(Offsets(m.queue))
    ensures forall i | 0 <= i < |m.queue| ::
      Offsets(m.queue)[i] % PAGESIZE == 0 && 0 < Offsets(m.queue)[i] / PAGESIZE < m.size
  {
    assert forall i | 0 <= i < |m.queue| :: m.queue[i] in m.queue;
  }

  /** With at most the last page loose, the walk from the head still reaches the tail. */
  lemma WalkReachesTail(f: File, m: Model)
    requires Means(f, m) && forall p | p in m.loose :: p == m.queue[|m.queue| - 1]
    ensures Walk(f, Head(PageAt(f, 0)), |m.queue|) == Offsets(m.queue)
    ensures Tail(PageAt(f, 0)) == if m.queue == [] then EMPTY_LIST else IndexToOffset(m.queue[|m.queue| - 1])
  {
    QueueInFile(f, m);
    WalkChain(f, m.queue, m.loose, |m.queue|);
  }

  // ----- every store that a run reaches -----

  /** What the calls and answers tell of the free list: how many pages are on it, and whether its
      first or its last page may have lost its link to a call that failed half-way. */
  datatype Told = Told(free: nat, head: bool, tail: bool)

  /** An alloc_page with a source page whose write failed may have spoilt the first page, unless
      it had to grow the store; a free_page whose write failed, the last one.  A page that is
      taken off the list later was in order, and the last page is written anew by the next
      free_page that succeeds. */
  function Learn(t: Told, op: Op, reply: Reply): Told {
    match (op, reply)
    case (AllocOp(_, _), Allocated(Ok, _)) =>
      if t.free <= 1 then Told(0, false, false) else Told(t.free - 1, false, t.tail)
    case (AllocOp(Some(_), _), Allocated(BadWrite, _)) =>
      if t.free == 0 then t else if t.free == 1 then t.(tail := true) else t.(head := true)
    case (FreeOp(_, _), Done(Ok)) => t.(free := t.free + 1, tail := false)
    case (FreeOp(_, _), Done(BadWrite)) => if t.free == 0 then t else t.(tail := true)
    case _ => t
  }

  /** What a whole run told, starting from a list of free pages in order. */
  function ToldBy(free: nat, ops: seq<Op>, replies: seq<Reply>): Told
    requires |ops| == |replies|
  {
    if ops == [] then Told(free, false, false)
    else
      var n := |ops| - 1;
      Learn(ToldBy(free, ops[..n], replies[..n]), ops[n], replies[n])
  }

  ghost predicate LooseAsTold(m: Model, t: Told) {
    && |m.queue| == t.free && (t.head ==> 2 <= t.free) && (t.tail ==> 1 <= t.free)
    && forall p | p in m.loose ::
         m.queue != [] && ((t.head && p == m.queue[0]) || (t.tail && p == m.queue[|m.queue| - 1]))
  }

  lemma StepTold(m: Model, op: Op, t: Told)
    requires OpOk(m, op) && LooseAsTold(m, t)
    ensures var (m', reply) := StepModel(m, op); LooseAsTold(m', Learn(t, op, reply))
  {
    hide FreeImage, Writable, StrayHarmless;
  }

  /** Over any run the answers tell how many pages are free, and which can be loose. */
  lemma {:induction false} RunTold(m: Model, ops: seq<Op>)
    requires RunOk(m, ops) && m.loose == {}
    ensures LooseAsTold(RunModel(m, ops).model, ToldBy(|m.queue|, ops, RunModel(m, ops).replies))
  {
    hide StepModel, OpOk, Learn;
    if ops != [] {
      var n := |ops| - 1;
      RunTold(m, ops[..n]);
      StepTold(RunModel(m, ops[..n]).model, ops[n], ToldBy(|m.queue|, ops[..n], RunModel(m, ops[..n]).replies));
      assert RunModel(m, ops).replies[..n] == RunModel(m, ops[..n]).replies;
    }
  }

  /** Every store that a run from a fresh one reaches, failed calls included: pages are either
      free or live, head is -1 iff tail is, and the answers tell how many pages are free.  Unless
      they leave the first page in doubt, following the links from the head on disk passes exactly
      the queue and reaches the tail; unless they leave the last one in doubt too, the walk also
      ends there by itself. */
  lemma EveryReachableStore(f: File, ops: seq<Op>)
    requires Means(f, FRESH) && RunOk(FRESH, ops)
    ensures var ran := Run(f, ops); var g := ran.file; var m := RunModel(FRESH, ops).model;
      var walk := Offsets(m.queue); var told := ToldBy(0, ops, ran.replies);
      && Size(PageAt(g, 0)) == m.size && |m.queue| == told.free
      && NoDup(walk) && (forall p | 0 < p < m.size :: p in m.queue <==> p !in m.live)
      && (Head(PageAt(g, 0)) == -1 <==> Tail(PageAt(g, 0)) == -1)
      && (Head(PageAt(g, 0)) == -1 <==> m.queue == [])
      && (!told.head ==>
            && Walk(g, Head(PageAt(g, 0)), |m.queue|) == walk
            && Tail(PageAt(g, 0)) == if walk == [] then -1 else walk[|walk| - 1])
      && (!told.head && !told.tail ==> Walk(g, Head(PageAt(g, 0)), m.size) == walk)
  {
    hide Run, RunModel, RunOk, PageAt, Field, Walk, NoDup, Chained, Contents, ToldBy;
    RunRefines(f, FRESH, ops);
    RunTold(FRESH, ops);
    var ran, m := Run(f, ops), RunModel(FRESH, ops).model;
    var told := ToldBy(0, ops, ran.replies);
    ReadMeta(ran.file, m);
    OffsetsOfQueue(m);
    if !told.head {
      WalkReachesTail(ran.file, m);
      if !told.tail {
        WalkIsQueue(ran.file, m, m.size);
      }
    }
  }

  /** The bytes of a store with no loose page have one meaning only. */
  lemma MeaningIsUnique(f: File, m: Model, m': Model)
    requires Means(f, m) && Means(f, m') && m.loose == {} && m'.loose == {}
    ensures m == m'
  {
    hide NoDup, Chained, Walk;
    WalkIsQueue(f, m, m.size);
    WalkIsQueue(f, m', m.size);
    assert m.queue == m'.queue by {
      assert forall i | 0 <= i < |m.queue| :: Offsets(m.queue)[i] == Offsets(m'.queue)[i];
    }
    assert m.live.Keys == m'.live.Keys;
    assert m.live == m'.live;
  }

  // ----- calls that fail half-way -----

  /** A free_page that has rewritten the old tail and then fails leaves a list whose last
      link may lead anywhere; allocations that stop short of that page come out in order, and
      the next free_page that succeeds, of any live page, puts the list right again. */
  lemma FailedFreeRecovers(f: File, m: Model, p: nat, io: nat, ds: seq<Page>, p': nat)
    requires Means(f, m) && m.queue != [] && p in m.live && 2 <= io < ALL_IO
    requires forall x | x in m.loose :: x == m.queue[|m.queue| - 1]
    requires |ds| < |m.queue| && p' in m.live
    ensures var f1 := Free(f, p, io).file;
      var ran := Run(f1, Allocs(ds));
      var f2 := Free(ran.file, p', ALL_IO);
      && Free(f, p, io).status == BadWrite
      && (forall i | 0 <= i < |ds| :: ran.replies[i] == Allocated(Ok, m.queue[i]))
      && f2.status == Ok
      && exists m' :: Means(f2.file, m') && m'.loose == {} && m'.size == m.size && m'.queue == m.queue[|ds|..] + [p']
  {
    FreeMeans(f, m, p, io);
    QueueNoDup(f, m);
    HalfFreed(m, p, io);
    var f1, m1 := Free(f, p, io).file, FreeModel(m, p, io).model;
    QueueIsAddressable(f1, m1);
    hide Means, Free, FreeModel, AllocOk, RunModel, Run, NoDup, Addressable;
    AllocsModel(m1, ds);
    RunRefines(f1, m1, Allocs(ds));
    FreeSettles(Run(f1, Allocs(ds)).file, RunModel(m1, Allocs(ds)).model, p');
  }

  lemma HalfFreed(m: Model, p: nat, io: nat)
    requires m.queue != [] && p in m.live && 2 <= io < ALL_IO && NoDup(m.queue)
    requires forall x | x in m.loose :: x == m.queue[|m.queue| - 1]
    ensures var o := FreeModel(m, p, io);
      && o.status == BadWrite && o.model.queue == m.queue && o.model.size == m.size
      && o.model.live.Keys == m.live.Keys
      && (forall x | x in o.model.loose :: x == m.queue[|m.queue| - 1])
      && forall i | 0 <= i < |m.queue| - 1 :: m.queue[i] !in o.model.loose
  {
    hide FreeImage;
  }

  /** A free_page that succeeds rewrites the last page, and with it the only loose one. */
  lemma FreeSettles(f: File, m: Model, p: nat)
    requires Means(f, m) && m.queue != [] && p in m.live
    requires forall x | x in m.loose :: x == m.queue[|m.queue| - 1]
    ensures var r := Free(f, p, ALL_IO);
      && r.status == Ok
      && exists m' :: Means(r.file, m') && m'.loose == {} && m'.size == m.size && m'.queue == m.queue + [p]
  {
    hide Means, Free;
    FreeMeans(f, m, p, ALL_IO);
    var m' := FreeModel(m, p, ALL_IO).model;
    assert m'.loose == {} && m'.queue == m.queue + [p];
  }

  lemma QueueNoDup(f: File, m: Model)
    requires Means(f, m)
    ensures NoDup(m.queue)
  {
  }

  /** An alloc_page that fails between its two writes, on a list of one page, is put right by
      the next free_page that succeeds, because that rewrites the page. */
  lemma FailedReuseRecovers(f: File, m: Model, d: Page, p: nat)
    requires Means(f, m) && |m.queue| == 1 && p in m.live
    ensures var f1 := Alloc(f, Some(d), 3).file;
      var f2 := Free(f1, p, ALL_IO);
      && Alloc(f, Some(d), 3).status == BadWrite && f2.status == Ok
      && exists m' :: Means(f2.file, m') && m'.loose == {} && m'.queue == m.queue + [p]
  {
    assert m.queue[0] in m.queue;
    InStore(f, m, m.queue[0]);
    AllocMeans(f, m, Some(d), 3);
    var f1, m1 := Alloc(f, Some(d), 3).file, HalfReused(m, Some(d));
    assert forall x | x in m.loose :: x == m.queue[0];
    hide Means, Alloc, Free, AllocOk;
    FreeSettles(f1, m1, p);
  }
}
