/** Where fileio.c falls short of what it says it does, and exactly when. */
module StoreFaults {
  import opened Wrappers
  import opened Sequences
  import opened Words
  import opened Files
  import opened Store
  import opened StoreInvariant
  import opened StoreRuns
  import opened StoreQueue

  // ----- alloc_page without a source page -----

  lemma LinkIsNotBlank(f: File, m: Model, i: nat)
    requires Body(f, m) && i < |m.queue| && m.queue[i] !in m.loose
    ensures PageAt(f, m.queue[i]) != BLANK
  {
    hide PageAt, FreeImage, NoDup;
    if i + 1 < |m.queue| {
      assert m.queue[i + 1] in m.queue;
      FreeImageIsNotBlank(IndexToOffset(m.queue[i + 1]));
    } else {
      FreeImageIsNotBlank(EMPTY_LIST);
    }
  }

  /** What a reuse with no source page leaves: a blank page at the stray place, and the new
      metadata. */
  lemma ReuseNoneWrites(f: File, m: Model)
    requires Means(f, m) && m.queue != [] && Writable(IndexToOffset(StrayPage(m)))
    ensures var r := Alloc(f, None, ALL_IO);
      && r.status == Ok && r.index == m.queue[0]
      && PageAt(r.file, StrayPage(m)) == BLANK
      && forall p | 0 < p < m.size && p != StrayPage(m) :: PageAt(r.file, p) == PageAt(f, p)
  {
    hide WriteAt, PageAt, Field, PopMeta;
    ReadMeta(f, m);
    var h := m.queue[0];
    assert h in m.queue;
    InStore(f, m, h);
    ReadLink(f, h);
    var s := StrayPage(m);
    WritePage(f, s, BLANK);
    var g := WriteAt(f, IndexToOffset(s), BLANK);
    WritePage(g, 0, PopMeta(PageAt(f, 0), Link(PageAt(f, h))));
  }

  /** fileio.c:230 multiplies an offset by the page size again.  The reuse does what it
      should to the rest of the store exactly if the page it blanks instead is past the end
      of the store, or live and blank already, and is one that can be written at all. */
  lemma StrayBlankExact(f: File, m: Model)
    requires Means(f, m) && m.loose == {} && m.queue != []
    ensures Means(Alloc(f, None, ALL_IO).file, Pop(m, None))
      <==> StrayHarmless(m) && Writable(IndexToOffset(StrayPage(m)))
  {
    assert m.queue[0] in m.queue;
    InStore(f, m, m.queue[0]);
    if !Writable(IndexToOffset(StrayPage(m))) {
      ReuseNoneRefused(f, m, ALL_IO);
      PopIsDifferent(f, m);
    } else if StrayHarmless(m) {
      AllocMeans(f, m, None, ALL_IO);
    } else {
      ReuseNoneWrites(f, m);
      StrayHurts(f, Alloc(f, None, ALL_IO).file, m, Pop(m, None));
    }
  }

  /** The blank page cannot be written where it does not belong. */
  lemma ReuseNoneRefused(f: File, m: Model, io: nat)
    requires Means(f, m) && m.queue != [] && !Writable(IndexToOffset(StrayPage(m)))
    ensures Alloc(f, None, io).file == f && Alloc(f, None, io).status != Ok
  {
    ReadMeta(f, m);
    hide WriteAt, PageAt, Field, PopMeta;
  }

  lemma PopIsDifferent(f: File, m: Model)
    requires Means(f, m) && m.queue != []
    ensures !Means(f, Pop(m, None))
  {
    hide PageAt, Field, FreeImage, Chained, Contents;
    assert m.queue[0] in m.queue;
  }

  /** A stray blank page that is not harmless contradicts every model in which the page is
      live with what it held, or free and not loose. */
  lemma StrayHurts(f: File, g: File, m: Model, m': Model)
    requires Means(f, m) && m.loose == {} && m.queue != [] && !StrayHarmless(m)
    requires PageAt(g, StrayPage(m)) == BLANK && m'.loose == {} && m'.size == m.size
    requires forall p | p in m.live :: p in m'.live && m'.live[p] == m.live[p]
    requires forall p | p in m.queue && p != m.queue[0] :: p in m'.queue
    ensures !Body(g, m')
  {
    hide PageAt, Field, FreeImage, NoDup;
    var s := StrayPage(m);
    assert m.queue[0] in m.queue;
    if s in m.live {
      assert m'.live[s] != BLANK;
    } else if Body(g, m') {
      var i :| 0 <= i < |m'.queue| && m'.queue[i] == s;
      LinkIsNotBlank(g, m', i);
    }
  }

  /** No store of up to PAGESIZE pages is ever hurt. */
  lemma SmallStoresAreSafe(m: Model)
    requires Partition(m) && m.queue != [] && m.size <= PAGESIZE
    ensures StrayHarmless(m)
  {
    assert m.queue[0] in m.queue;
  }

  /** The comment at fileio.c:228 promises a blank page.  One comes back exactly if the store
      grew: a reused page keeps its free-list link, which is never 0. */
  lemma BlankPageExact(f: File, m: Model)
    requires Means(f, m) && m.loose == {} && Alloc(f, None, ALL_IO).status == Ok
    ensures var r := Alloc(f, None, ALL_IO);
      PageAt(r.file, r.index) == BLANK <==> m.queue == []
  {
    if m.queue == [] {
      AllocMeans(f, m, None, ALL_IO);
      hide Alloc, PageAt, Field, NoDup;
      var o := AllocModel(m, None, ALL_IO);
      assert o.index in o.model.live && o.model.live[o.index] == BLANK;
    } else {
      ReuseWrites(f, m);
      hide Alloc, PageAt, Field, NoDup;
      ReuseNoneWrites(f, m);
      assert m.queue[0] in m.queue;
      LinkIsNotBlank(f, m, 0);
    }
  }

  lemma ReuseWrites(f: File, m: Model)
    requires Means(f, m) && m.queue != [] && Alloc(f, None, ALL_IO).status == Ok
    ensures Writable(IndexToOffset(StrayPage(m)))
  {
    ReadMeta(f, m);
    hide WriteAt, PageAt, Field, PopMeta;
  }

  // ----- failed calls -----

  /** A failed alloc_page reports index -1, except that a failed data write into a new page
      reports 1, the number of a page that may well be live. */
  lemma FailedAllocIndex(f: File, src: Option<Page>, io: nat)
    requires Alloc(f, src, io).status != Ok
    ensures Alloc(f, src, io).index ==
      if |f| >= PAGESIZE && Head(f[..PAGESIZE]) == -1 && src.Some? && io == 2
        && Writable(IndexToOffset(Size(f[..PAGESIZE])))
      then 1 else -1
  {
    hide WriteAt, Field, PopMeta;
  }

  /** A reuse that fails at the metadata write leaves what it wrote.  With a source page the
      store means what it meant exactly if the source page is the very page it replaced, and
      the chain of links survives exactly if its first word is that page's link; with no
      source page, exactly if the blank write was harmless. */
  lemma FailedReuseExact(f: File, m: Model, d: Page)
    requires Means(f, m) && m.loose == {} && m.queue != []
    ensures Alloc(f, Some(d), 3).status == BadWrite && Alloc(f, None, 3).status == BadWrite
    ensures Means(Alloc(f, Some(d), 3).file, m) <==> d == FreeImage(HeadWord(m.queue[1..]))
    ensures Walk(Alloc(f, Some(d), 3).file, HeadWord(m.queue), m.size) == Offsets(m.queue)
      <==> Link(d) == HeadWord(m.queue[1..])
    ensures Means(Alloc(f, None, 3).file, m) <==> StrayHarmless(m)
  {
    FailedReuseSome(f, m, d);
    FailedReuseNone(f, m);
    hide Alloc, Means, Walk, Link, FreeImage;
    FailedReuseLink(f, Alloc(f, Some(d), 3).file, m, d);
  }

  lemma FailedReuseSome(f: File, m: Model, d: Page)
    requires Means(f, m) && m.loose == {} && m.queue != []
    ensures var r := Alloc(f, Some(d), 3);
      && r.status == BadWrite && Means(r.file, HalfReused(m, Some(d)))
      && |r.file| == |f| && PageAt(r.file, m.queue[0]) == d
    ensures Means(Alloc(f, Some(d), 3).file, m) <==> d == FreeImage(HeadWord(m.queue[1..]))
  {
    hide WriteAt, PageAt, Field, PopMeta, FreeImage, NoDup;
    ReadMeta(f, m);
    var h := m.queue[0];
    assert h in m.queue;
    InStore(f, m, h);
    ReadLink(f, h);
    WriteFree(f, m, 0, d);
    var g := Alloc(f, Some(d), 3).file;
    HeadLink(f, m);
    if d == FreeImage(HeadWord(m.queue[1..])) {
      UnchangedMeans(f, g, m);
    } else if Means(g, m) {
      HeadLink(g, m);
    }
  }

  lemma FailedReuseLink(f: File, g: File, m: Model, d: Page)
    requires Means(f, m) && m.queue != [] && m.loose == {}
    requires Means(g, HalfReused(m, Some(d))) && |g| == |f| && PageAt(g, m.queue[0]) == d
    ensures Walk(g, HeadWord(m.queue), m.size) == Offsets(m.queue) <==> Link(d) == HeadWord(m.queue[1..])
  {
    hide Means, Walk, WordAt, Link, Offsets, FreeImage, PageAt;
    var h, rest := m.queue[0], m.queue[1..];
    HeadWordIs(g, HalfReused(m, Some(d)), d);
    RestIsWalked(g, m, Some(d));
    OffsetsCons(m.queue);
    WalkStep(g, IndexToOffset(h), m.size);
    SameTail(IndexToOffset(h), Walk(g, Link(d), m.size - 1), Offsets(rest));
    FirstStep(g, Link(d), HeadWord(rest), m.size - 1);
  }

  lemma WalkStep(g: File, off: int, fuel: nat)
    requires off != EMPTY_LIST && 0 < fuel
    ensures Walk(g, off, fuel) == [off] + Walk(g, WordAt(g, off), fuel - 1)
  {
    hide WordAt;
  }

  lemma SameTail(x: int, s: seq<int>, t: seq<int>)
    ensures [x] + s == [x] + t <==> s == t
  {
    assert ([x] + s)[1..] == s && ([x] + t)[1..] == t;
  }

  lemma HeadWordIs(g: File, m: Model, d: Page)
    requires Means(g, m) && m.queue != [] && PageAt(g, m.queue[0]) == d
    ensures WordAt(g, IndexToOffset(m.queue[0])) == Link(d) && 1 < m.size
  {
    assert m.queue[0] in m.queue;
    InStore(g, m, m.queue[0]);
    ReadLink(g, m.queue[0]);
    hide PageAt, Field;
  }

  lemma RestIsWalked(g: File, m: Model, src: Option<Page>)
    requires m.queue != [] && m.loose == {} && Means(g, HalfReused(m, src))
    ensures Walk(g, HeadWord(m.queue[1..]), m.size - 1) == Offsets(m.queue[1..])
  {
    hide Walk, InFile, PageAt, FreeImage, NoDup, Contents, Offsets, Field;
    var loose := HalfReused(m, src).loose;
    RestOnlyLast(m, loose);
    QueueInFile(g, HalfReused(m, src));
    ChainedRest(g, m.queue, loose);
    hide *;
    WalkChain(g, m.queue[1..], loose, m.size - 1);
  }

  lemma RestOnlyLast(m: Model, loose: set<nat>)
    requires Partition(m) && 1 <= m.size && m.queue != [] && forall p | p in loose :: p == m.queue[0]
    ensures OnlyLast(m.queue[1..], loose, m.size - 1)
  {
    PagesAreConserved(m);
    assert m.queue[0] !in m.queue[1..];
  }

  /** Walks that start at different words are different. */
  lemma FirstStep(g: File, a: int, b: int, fuel: nat)
    requires 0 < fuel
    ensures Walk(g, a, fuel) == Walk(g, b, fuel) <==> a == b
  {
    hide WordAt;
    assert a != EMPTY_LIST ==> Walk(g, a, fuel)[0] == a;
    assert b != EMPTY_LIST ==> Walk(g, b, fuel)[0] == b;
  }

  lemma FailedReuseNone(f: File, m: Model)
    requires Means(f, m) && m.loose == {} && m.queue != []
    ensures Alloc(f, None, 3).status == BadWrite
    ensures Means(Alloc(f, None, 3).file, m) <==> StrayHarmless(m)
  {
    assert m.queue[0] in m.queue;
    if StrayHarmless(m) {
      AllocMeans(f, m, None, 3);
    } else {
      FailedReuseNoneWrites(f, m);
      StrayHurts(f, Alloc(f, None, 3).file, m, m);
    }
  }

  lemma FailedReuseNoneWrites(f: File, m: Model)
    requires Means(f, m) && m.queue != [] && !StrayHarmless(m)
    ensures Alloc(f, None, 3).status == BadWrite && PageAt(Alloc(f, None, 3).file, StrayPage(m)) == BLANK
  {
    ReadMeta(f, m);
    var h := m.queue[0];
    assert h in m.queue;
    InStore(f, m, h);
    ReadLink(f, h);
    WritePage(f, StrayPage(m), BLANK);
    hide WriteAt, PageAt, Field, PopMeta;
  }

  /** What AllocOk leaves out: alloc_page on a list whose first page may have any link.  It takes
      that page off the list, and leaves the other free pages and every live one as they were,
      exactly if the link is the right one all the same. */
  lemma PopExact(f: File, m: Model, d: Page)
    requires Means(f, m) && m.queue != []
    ensures Alloc(f, Some(d), ALL_IO).status == Ok && Alloc(f, Some(d), ALL_IO).index == m.queue[0]
    ensures Means(Alloc(f, Some(d), ALL_IO).file, Pop(m, Some(d)).(loose := m.loose - {m.queue[0]}))
      <==> Link(PageAt(f, m.queue[0])) == HeadWord(m.queue[1..])
  {
    hide Alloc, PageAt, Field, FreeImage, Body, Partition;
    PopWrites(f, m, d);
    PoppedBody(f, Alloc(f, Some(d), ALL_IO).file, m, d);
    PoppedTail(f, m);
  }

  lemma PoppedTail(f: File, m: Model)
    requires Means(f, m) && m.queue != []
    ensures TailWord(m.queue[1..]) == if |m.queue| == 1 then HeadWord(m.queue[1..]) else TailWord(m.queue)
  {
  }

  lemma PoppedBody(f: File, g: File, m: Model, d: Page)
    requires Means(f, m) && m.queue != [] && |g| == |f| && PageAt(g, m.queue[0]) == d
    requires forall p | 0 < p < m.size && p != m.queue[0] :: PageAt(g, p) == PageAt(f, p)
    ensures Body(g, Pop(m, Some(d)).(loose := m.loose - {m.queue[0]}))
  {
    hide PageAt, FreeImage, Field, NoDup;
    PopPartition(m, d);
    var rest := m.queue[1..];
    assert forall p | p in m.queue :: p == m.queue[0] || p in rest;
    assert forall p | p in rest :: p in m.queue;
    forall i | 0 <= i < |rest| && rest[i] !in m.loose - {m.queue[0]}
      ensures PageAt(g, rest[i]) == FreeImage(NextWord(rest, i))
    {
      assert rest[i] in rest && rest[i] == m.queue[i + 1] && NextWord(rest, i) == NextWord(m.queue, i + 1);
      HeadIsNotLater(m, i);
    }
  }

  lemma HeadIsNotLater(m: Model, i: nat)
    requires Partition(m) && i + 1 < |m.queue|
    ensures m.queue[i + 1] != m.queue[0]
  {
  }

  lemma LinkIsWord(page: Page)
    ensures IsWord(Link(page))
  {
    EncodeDecode(page[0..WORDSIZE]);
  }

  lemma HeadInStore(f: File, m: Model)
    requires Means(f, m) && m.queue != []
    ensures 0 < m.queue[0] < m.size
    ensures HeadWord(m.queue) == TailWord(m.queue) <==> |m.queue| == 1
  {
    assert m.queue[0] in m.queue;
  }

  lemma PopWrites(f: File, m: Model, d: Page)
    requires Means(f, m) && m.queue != []
    ensures var r := Alloc(f, Some(d), ALL_IO); var link := Link(PageAt(f, m.queue[0]));
      && r.status == Ok && r.index == m.queue[0]
      && |r.file| == |f|
      && Head(PageAt(r.file, 0)) == link
      && Tail(PageAt(r.file, 0)) == (if |m.queue| == 1 then link else TailWord(m.queue))
      && Size(PageAt(r.file, 0)) == m.size
      && PageAt(r.file, m.queue[0]) == d
      && forall p | 0 < p < m.size && p != m.queue[0] :: PageAt(r.file, p) == PageAt(f, p)
  {
    hide WriteAt, PageAt, Field, SetField, Partition, Chained, Contents;
    ReadMeta(f, m);
    var h := m.queue[0];
    HeadInStore(f, m);
    InStore(f, m, h);
    ReadLink(f, h);
    var meta, link := PageAt(f, 0), Link(PageAt(f, h));
    LinkIsWord(PageAt(f, h));
    WritePage(f, h, d);
    var g := WriteAt(f, IndexToOffset(h), d);
    FieldOfSetField(meta, 1, link);
    FieldOfSetField(SetField(meta, 1, link), 2, link);
    WritePage(g, 0, PopMeta(meta, link));
  }

  /** The link left by the failed call then becomes the head of the list, and one more
      alloc_page hands out the page that was being freed, while its owner still has it. */
  lemma FailedFreeDoubleAllocation(f: File, m: Model, p: nat, d: Page, d': Page)
    requires Means(f, m) && |m.queue| == 1 && p in m.live
    ensures var f1 := Free(f, p, 2).file;
      var first := Alloc(f1, Some(d), ALL_IO);
      var second := Alloc(first.file, Some(d'), ALL_IO);
      && Free(f, p, 2).status == BadWrite && Means(f1, Loosened(m))
      && first.status == Ok && first.index == m.queue[0]
      && second.status == Ok && second.index == p
  {
    hide Alloc, WriteAt, Field;
    var t := m.queue[0];
    assert t in m.queue;
    FreeMeans(f, m, p, 2);
    WriteTail(f, m, FreeImage(IndexToOffset(p)));
    var f1 := Free(f, p, 2).file;
    ReadMeta(f, m);
    hide PageAt, FreeImage;
    assert PageAt(f1, t) == FreeImage(IndexToOffset(p));
    InStore(f, m, p);
    LinkOfFreeImage(IndexToOffset(p));
    PopWrites(f1, Loosened(m), d);
    HeadAlloc(Alloc(f1, Some(d), ALL_IO).file, p, d');
  }

  /** alloc_page trusts whatever page the head on disk names. */
  lemma HeadAlloc(f: File, p: nat, d: Page)
    requires PAGESIZE <= |f| && Head(PageAt(f, 0)) == IndexToOffset(p)
    requires (p + 1) * PAGESIZE <= |f| && Writable(IndexToOffset(p))
    ensures Alloc(f, Some(d), ALL_IO).status == Ok && Alloc(f, Some(d), ALL_IO).index == p
  {
    assert f[..PAGESIZE] == PageAt(f, 0);
    ReadLink(f, p);
    hide WriteAt, Field, PopMeta, PageAt;
  }

  // ----- free_page on a live page, and it fails -----

  /** A free_page that fails leaves what it wrote.  The store means what it meant exactly if the
      call failed before its first write, or had only the freed page to write and that held the
      very same bytes; and the links from the head pass the free pages and end exactly if it
      failed before its first write or no page was free. */
  lemma FailedFreeExact(f: File, m: Model, p: nat, io: nat)
    requires Means(f, m) && m.loose == {} && p in m.live && Free(f, p, io).status != Ok
    ensures Means(Free(f, p, io).file, m) <==> io < 2 || (m.queue == [] && m.live[p] == FreeImage(EMPTY_LIST))
    ensures Walk(Free(f, p, io).file, HeadWord(m.queue), m.size) == Offsets(m.queue) <==> io < 2 || m.queue == []
  {
    hide Free, Means, Walk, Offsets, FreeImage;
    if io < 2 {
      FailedFreeEarly(f, m, p, io);
    } else if m.queue == [] {
      FailedFreeFirst(f, m, p, io);
    } else {
      FailedFreeAppend(f, m, p, io);
    }
  }

  lemma FailedFreeEarly(f: File, m: Model, p: nat, io: nat)
    requires Means(f, m) && m.loose == {} && p in m.live && io < 2
    ensures Free(f, p, io).file == f && Walk(f, HeadWord(m.queue), m.size) == Offsets(m.queue)
  {
    hide Walk, PageAt, FreeImage, Field;
    WalkIsQueue(f, m, m.size);
  }

  lemma FailedFreeFirst(f: File, m: Model, p: nat, io: nat)
    requires Means(f, m) && p in m.live && m.queue == [] && 2 <= io && Free(f, p, io).status != Ok
    ensures Means(Free(f, p, io).file, m) <==> m.live[p] == FreeImage(EMPTY_LIST)
    ensures Walk(Free(f, p, io).file, HeadWord(m.queue), m.size) == Offsets(m.queue)
  {
    hide Free, PageAt, FreeImage, Field, Partition, Chained;
    FreeMeans(f, m, p, io);
    var wiped := FreeModel(m, p, io).model;
    assert Means(Free(f, p, io).file, wiped) && wiped.live[p] == FreeImage(EMPTY_LIST);
    if m.live[p] == FreeImage(EMPTY_LIST) {
      assert wiped.live == m.live;
    }
  }

  lemma FailedFreeAppend(f: File, m: Model, p: nat, io: nat)
    requires Means(f, m) && m.loose == {} && p in m.live && m.queue != [] && 2 <= io && Free(f, p, io).status != Ok
    ensures !Means(Free(f, p, io).file, m)
    ensures Walk(Free(f, p, io).file, HeadWord(m.queue), m.size) != Offsets(m.queue)
  {
    hide Free, Walk, Means, PageAt, FreeImage, Offsets, Partition;
    var g, t := Free(f, p, io).file, m.queue[|m.queue| - 1];
    FailedFreeTail(f, m, p, io);
    WrongLink(p);
    if Means(g, m) {
      LastLink(g, m);
    }
    WalkGoesOn(g, FreeModel(m, p, io).model, p);
  }

  lemma LastLink(g: File, m: Model)
    requires Means(g, m) && m.loose == {} && m.queue != []
    ensures PageAt(g, m.queue[|m.queue| - 1]) == FreeImage(EMPTY_LIST)
  {
    hide PageAt, FreeImage, Field, Partition, Contents;
    assert NextWord(m.queue, |m.queue| - 1) == EMPTY_LIST;
  }

  /** The old tail leads to the page that was to be freed. */
  lemma FailedFreeTail(f: File, m: Model, p: nat, io: nat)
    requires Means(f, m) && m.loose == {} && p in m.live && m.queue != [] && 2 <= io && Free(f, p, io).status != Ok
    ensures var g := Free(f, p, io).file;
      && Means(g, FreeModel(m, p, io).model) && FreeModel(m, p, io).model.queue == m.queue
      && FreeModel(m, p, io).model.loose == {m.queue[|m.queue| - 1]}
      && FreeModel(m, p, io).model.size == m.size
      && 0 < p < m.size && PageAt(g, m.queue[|m.queue| - 1]) == FreeImage(IndexToOffset(p))
  {
    hide WriteAt, PageAt, FreeImage, Field, Chained, Contents;
    ReadMeta(f, m);
    FreeMeans(f, m, p, io);
    InStore(f, m, p);
    WriteTail(f, m, FreeImage(IndexToOffset(p)));
    var g := WriteAt(f, TailWord(m.queue), FreeImage(IndexToOffset(p)));
    WritePage(g, p, FreeImage(EMPTY_LIST));
    assert m.queue[|m.queue| - 1] in m.queue;
  }

  /** A walk whose last link leads on goes on. */
  lemma WalkGoesOn(g: File, m: Model, p: nat)
    requires Means(g, m) && m.queue != [] && m.loose == {m.queue[|m.queue| - 1]} && 0 < p < m.size
    requires PageAt(g, m.queue[|m.queue| - 1]) == FreeImage(IndexToOffset(p))
    ensures Walk(g, HeadWord(m.queue), m.size) != Offsets(m.queue)
  {
    hide Walk, WordAt, Offsets, PageAt, FreeImage, Field, InFile, Contents, Chained;
    var t := m.queue[|m.queue| - 1];
    assert t in m.queue;
    InStore(g, m, t);
    ReadWord(g, t);
    LinkOfFreeImage(IndexToOffset(p));
    QueueInFile(g, m);
    PagesAreConserved(m);
    ThereIsRoom(m);
    WalkOn(g, m.queue, m.loose, m.size);
    WalkStep(g, IndexToOffset(p), m.size - |m.queue|);
  }

  lemma ReadWord(g: File, p: nat)
    requires (p + 1) * PAGESIZE <= |g|
    ensures WordAt(g, IndexToOffset(p)) == Link(PageAt(g, p))
  {
    hide PageAt, Field;
    ReadLink(g, p);
  }

  lemma ThereIsRoom(m: Model)
    requires Partition(m) && m.size - 1 == |m.queue| + |m.live|
    ensures |m.queue| < m.size
  {
  }

  lemma {:induction false} WalkOn(f: File, queue: seq<nat>, loose: set<nat>, fuel: nat)
    requires InFile(f, queue) && Chained(f, queue, loose) && queue != [] && |queue| <= fuel
    requires forall i | 0 <= i < |queue| - 1 :: queue[i] !in loose
    ensures Walk(f, HeadWord(queue), fuel) ==
      Offsets(queue) + Walk(f, WordAt(f, IndexToOffset(queue[|queue| - 1])), fuel - |queue|)
    decreases fuel
  {
    hide PageAt, FreeImage, WordAt, InFile, Chained, Offsets, Walk;
    var rest := queue[1..];
    OffsetsCons(queue);
    WalkStep(f, IndexToOffset(queue[0]), fuel);
    if rest == [] {
      assert Offsets(rest) == [];
    } else {
      ChainedRest(f, queue, loose);
      FirstWord(f, queue, loose);
      WalkOn(f, rest, loose, fuel - 1);
    }
  }

  // ----- free_page on a page that is not live -----

  /** free_page in full, whatever page it is given. */
  lemma FreeWrites(f: File, m: Model, p: nat)
    requires Means(f, m) && 0 < p && Writable(IndexToOffset(p))
    ensures var r := Free(f, p, ALL_IO);
      && r.status == Ok
      && |f| <= |r.file| <= MAX_FILE
      && Size(PageAt(r.file, 0)) == m.size
      && Tail(PageAt(r.file, 0)) == IndexToOffset(p)
      && Head(PageAt(r.file, 0)) == (if m.queue == [] then IndexToOffset(p) else HeadWord(m.queue))
      && PageAt(r.file, p) == FreeImage(EMPTY_LIST)
      && (m.queue != [] && m.queue[|m.queue| - 1] != p ==>
            PageAt(r.file, m.queue[|m.queue| - 1]) == FreeImage(IndexToOffset(p)))
      && forall x | 0 < x < m.size && x != p && (m.queue != [] ==> x != m.queue[|m.queue| - 1]) ::
           PageAt(r.file, x) == PageAt(f, x)
  {
    hide WriteAt, PageAt, Field, SetField, FreeImage;
    ReadMeta(f, m);
    var meta, loc := PageAt(f, 0), IndexToOffset(p);
    var g := f;
    if m.queue != [] {
      WriteTail(f, m, FreeImage(loc));
      g := WriteAt(f, TailWord(m.queue), FreeImage(loc));
    }
    WritePage(g, p, FreeImage(EMPTY_LIST));
    var h := WriteAt(g, loc, FreeImage(EMPTY_LIST));
    FieldOfSetField(meta, 2, loc);
    FieldOfSetField(meta, 1, loc);
    FieldOfSetField(SetField(meta, 1, loc), 2, loc);
    WritePage(h, 0, if m.queue == [] then SetField(SetField(meta, 1, loc), 2, loc) else SetField(meta, 2, loc));
  }

  /** The page of the store that follows p in the queue drops out of the chain. */
  lemma FreedMiddle(f: File, g: File, m: Model, m': Model, k: nat)
    requires Means(f, m) && m.loose == {} && k + 1 < |m.queue|
    requires g == Free(f, m.queue[k], ALL_IO).file && Means(g, m') && m'.loose == {}
    ensures m'.live.Keys != m.live.Keys
  {
    hide PageAt, Field, FreeImage, Free;
    var p, next := m.queue[k], m.queue[k + 1];
    var t := m.queue[|m.queue| - 1];
    assert p in m.queue && next in m.queue && t in m.queue;
    InStore(f, m, p);
    FreeWrites(f, m, p);
    if m'.live.Keys == m.live.Keys {
      assert next !in m.live;
      assert m'.size == m.size && next in m'.queue;
      var j :| 0 <= j < |m'.queue| && m'.queue[j] == next;
      assert m'.queue != [] && m.queue[0] == m'.queue[0];
      assert j != 0;
      Predecessor(f, g, m, m', k, j);
    }
  }

  lemma Predecessor(f: File, g: File, m: Model, m': Model, k: nat, j: nat)
    requires Means(f, m) && m.loose == {} && k + 1 < |m.queue| && 0 < j < |m'.queue|
    requires Means(g, m') && m'.loose == {} && m'.size == m.size
    requires m'.queue[j] == m.queue[k + 1]
    requires PageAt(g, m.queue[k]) == FreeImage(EMPTY_LIST)
    requires PageAt(g, m.queue[|m.queue| - 1]) == FreeImage(IndexToOffset(m.queue[k]))
    requires forall x | 0 < x < m.size && x != m.queue[k] && x != m.queue[|m.queue| - 1] :: PageAt(g, x) == PageAt(f, x)
    ensures m'.live.Keys != m.live.Keys
  {
    hide PageAt, Field, FreeImage, NoDup;
    var x := m'.queue[j - 1];
    assert x in m'.queue && NextWord(m'.queue, j - 1) == IndexToOffset(m.queue[k + 1]);
    if x in m.queue {
      var i :| 0 <= i < |m.queue| && m.queue[i] == x;
      LeadsElsewhere(f, g, m, k, i);
    }
  }

  /** What the page at place i links to after the one at place k has been freed a second time. */
  function LinkAfter(queue: seq<nat>, k: nat, i: nat): int
    requires k < |queue|
  {
    if i == k then EMPTY_LIST else if i == |queue| - 1 then IndexToOffset(queue[k]) else NextWord(queue, i)
  }

  /** No page of the old queue then links to the page that followed it. */
  lemma LeadsElsewhere(f: File, g: File, m: Model, k: nat, i: nat)
    requires Means(f, m) && m.loose == {} && k + 1 < |m.queue| && i < |m.queue|
    requires PageAt(g, m.queue[k]) == FreeImage(EMPTY_LIST)
    requires PageAt(g, m.queue[|m.queue| - 1]) == FreeImage(IndexToOffset(m.queue[k]))
    requires forall x | 0 < x < m.size && x != m.queue[k] && x != m.queue[|m.queue| - 1] :: PageAt(g, x) == PageAt(f, x)
    ensures PageAt(g, m.queue[i]) != FreeImage(IndexToOffset(m.queue[k + 1]))
  {
    LinksDiffer(m, k, i);
    assert PageAt(g, m.queue[i]) == FreeImage(LinkAfter(m.queue, k, i)) by {
      assert m.queue[i] in m.queue;
      hide PageAt, FreeImage, Field, Contents;
    }
    hide Means, PageAt, FreeImage, LinkAfter;
    DifferentLinks(LinkAfter(m.queue, k, i), IndexToOffset(m.queue[k + 1]));
  }

  lemma LinksDiffer(m: Model, k: nat, i: nat)
    requires Partition(m) && m.size <= TWO_TO_THE_63 / PAGESIZE && k + 1 < |m.queue| && i < |m.queue|
    ensures IsWord(LinkAfter(m.queue, k, i)) && IsWord(IndexToOffset(m.queue[k + 1]))
    ensures LinkAfter(m.queue, k, i) != IndexToOffset(m.queue[k + 1])
  {
    assert m.queue[k] in m.queue && m.queue[k + 1] in m.queue;
    if i + 1 < |m.queue| {
      assert m.queue[i + 1] in m.queue;
    }
  }

  lemma DifferentLinks(a: int, b: int)
    requires IsWord(a) && IsWord(b) && a != b
    ensures FreeImage(a) != FreeImage(b)
  {
    LinkOfFreeImage(a);
    LinkOfFreeImage(b);
  }

  /** free_page promises to act only "if the page exists", and checks nothing.  Without I/O
      errors of the machine, the store that comes out is one in which just p has stopped being
      live, with all links in place, exactly if p is the metadata page, a live page, the page
      at the very tail of the free list (for which the call changes nothing), or a page number
      at which the file cannot be written while the free list is empty (for which it fails
      before it has changed anything).  -1, which a failed alloc_page reports, is not among
      them once a page is free. */
  lemma FreeExact(f: File, m: Model, p: int)
    requires Means(f, m) && m.loose == {}
    ensures (exists m': Model ::
               Means(Free(f, p, ALL_IO).file, m') && m'.loose == {} && m'.live.Keys == m.live.Keys - {p})
      <==> (p == 0 || p in m.live || (m.queue != [] && p == m.queue[|m.queue| - 1])
            || (m.queue == [] && !Writable(IndexToOffset(p))))
  {
    hide PageAt, Field, FreeImage, Free, NoDup, Partition, Chained, Contents;
    var g := Free(f, p, ALL_IO).file;
    if p == 0 {
      FreeMetaPage(f, ALL_IO);
      assert m.live.Keys - {0} == m.live.Keys by { LiveIsPositive(f, m); }
    } else if p in m.live {
      FreeMeans(f, m, p, ALL_IO);
      assert FreeModel(m, p, ALL_IO).model.live.Keys == m.live.Keys - {p};
    } else {
      assert m.live.Keys - {p} == m.live.Keys;
      if !Writable(IndexToOffset(p)) {
        FreeNowhere(f, m, p);
        if m.queue != [] {
          LastIsWritable(f, m);
        }
        assert m.queue == [] ==> Means(g, m);
      } else {
        FreeDead(f, m, p);
      }
    }
  }

  lemma LastIsWritable(f: File, m: Model)
    requires Means(f, m) && m.queue != []
    ensures Writable(IndexToOffset(m.queue[|m.queue| - 1]))
  {
    assert m.queue[|m.queue| - 1] in m.queue;
    InStore(f, m, m.queue[|m.queue| - 1]);
  }

  /** A page number at which the file cannot be written. */
  lemma FreeNowhere(f: File, m: Model, p: int)
    requires Means(f, m) && p != 0 && !Writable(IndexToOffset(p))
    ensures Free(f, p, ALL_IO).status == BadWrite
    ensures m.queue == [] ==> Free(f, p, ALL_IO).file == f
    ensures m.queue != [] ==>
      PageAt(Free(f, p, ALL_IO).file, m.queue[|m.queue| - 1]) == FreeImage(IndexToOffset(p))
    ensures m.queue != [] ==> forall m': Model | m'.loose == {} :: !Means(Free(f, p, ALL_IO).file, m')
  {
    ReadMeta(f, m);
    hide WriteAt, PageAt, Field, FreeImage, Partition, Chained, Contents;
    if m.queue != [] {
      var t := m.queue[|m.queue| - 1];
      WriteTail(f, m, FreeImage(IndexToOffset(p)));
      var g := Free(f, p, ALL_IO).file;
      WrongLink(p);
      forall m': Model | m'.loose == {}
        ensures !Means(g, m')
      {
        TailMustEnd(g, m', t);
      }
    }
  }

  /** No page offset, even one that has lost its upper bits, is the end link. */
  lemma WrongLink(p: int)
    ensures FreeImage(IndexToOffset(p)) != FreeImage(EMPTY_LIST)
  {
    var v := IndexToOffset(p) % TWO_TO_THE_64;
    EvenRemainder(p);
    var w := if v < TWO_TO_THE_63 then v else v - TWO_TO_THE_64;
    SameWord(IndexToOffset(p), w);
    hide FreeImage, IndexToOffset;
    DifferentLinks(w, EMPTY_LIST);
  }

  lemma EvenRemainder(p: int)
    ensures (p * PAGESIZE) % TWO_TO_THE_64 % 2 == 0
  {
    var q := (p * PAGESIZE) / TWO_TO_THE_64;
    assert (p * PAGESIZE) % TWO_TO_THE_64 == p * PAGESIZE - q * TWO_TO_THE_64 == 2 * (p * 2048 - q * TWO_TO_THE_63);
  }

  lemma SameWord(v: int, w: int)
    requires w == v % TWO_TO_THE_64 || w == v % TWO_TO_THE_64 - TWO_TO_THE_64
    ensures FreeImage(v) == FreeImage(w)
  {
    assert w % TWO_TO_THE_64 == v % TWO_TO_THE_64;
    hide LittleEndian;
  }

  lemma TailMustEnd(g: File, m: Model, t: nat)
    requires m.loose == {} && Tail(PageAt(g, 0)) == IndexToOffset(t) && PageAt(g, t) != FreeImage(EMPTY_LIST)
    ensures !Means(g, m)
  {
    hide PageAt, Field, FreeImage, Partition, Contents;
    assert m.queue != [] ==> NextWord(m.queue, |m.queue| - 1) == EMPTY_LIST;
  }

  /** A page of the file that is not live. */
  lemma FreeDead(f: File, m: Model, p: int)
    requires Means(f, m) && m.loose == {} && p != 0 && p !in m.live && Writable(IndexToOffset(p))
    ensures (exists m': Model :: Means(Free(f, p, ALL_IO).file, m') && m'.loose == {} && m'.live.Keys == m.live.Keys)
      <==> (m.queue != [] && p == m.queue[|m.queue| - 1])
  {
    hide PageAt, Field, FreeImage, Free, NoDup, Partition, Chained, Contents;
    var g := Free(f, p, ALL_IO).file;
    if m.queue != [] && p == m.queue[|m.queue| - 1] {
      FreedTail(f, g, m);
    } else {
      forall m' | Means(g, m') && m'.loose == {}
        ensures m'.live.Keys != m.live.Keys
      {
        FreedWrong(f, g, m, m', p);
      }
    }
  }

  lemma FreedTail(f: File, g: File, m: Model)
    requires Means(f, m) && m.loose == {} && m.queue != [] && g == Free(f, m.queue[|m.queue| - 1], ALL_IO).file
    ensures Means(g, m)
  {
    hide PageAt, Field, FreeImage, Free;
    var p := m.queue[|m.queue| - 1];
    assert p in m.queue;
    InStore(f, m, p);
    FreeWrites(f, m, p);
    BodyFrame(f, g, m);
  }

  lemma FreedWrong(f: File, g: File, m: Model, m': Model, p: nat)
    requires Means(f, m) && m.loose == {} && 0 < p && p !in m.live && Writable(IndexToOffset(p))
    requires m.queue != [] ==> p != m.queue[|m.queue| - 1]
    requires g == Free(f, p, ALL_IO).file && Means(g, m') && m'.loose == {}
    ensures m'.live.Keys != m.live.Keys
  {
    hide PageAt, Field, FreeImage, Free, Means;
    FreeWrites(f, m, p);
    TailIsLast(g, m', p);
    if m'.live.Keys == m.live.Keys {
      SamePages(f, g, m, m', p);
      var k :| 0 <= k < |m.queue| && m.queue[k] == p;
      FreedMiddle(f, g, m, m', k);
    }
  }

  lemma TailIsLast(g: File, m: Model, p: nat)
    requires Means(g, m) && Tail(PageAt(g, 0)) == IndexToOffset(p)
    ensures m.queue != [] && m.queue[|m.queue| - 1] == p && p in m.queue
  {
    hide PageAt, Field, Partition, Chained, Contents;
  }

  /** Two meanings that agree on the size and the live pages have the same free pages. */
  lemma SamePages(f: File, g: File, m: Model, m': Model, p: nat)
    requires Means(f, m) && Means(g, m') && Size(PageAt(g, 0)) == m.size && m'.live.Keys == m.live.Keys
    ensures p in m'.queue ==> p in m.queue
  {
    hide PageAt, Field, Chained, Contents, NoDup;
    assert p in m'.live <==> p in m.live;
  }

  // ----- the bound on the stray blank write is tight -----

  function Copies(d: Page, n: nat): (ds: seq<Page>)
    ensures |ds| == n
  {
    seq(n, _ => d)
  }

  function Filled(d: Page, n: nat): (live: map<nat, Page>)
    ensures forall p :: (p in live <==> 0 < p <= n) && (p in live ==> live[p] == d)
  {
    if n == 0 then map[] else Filled(d, n - 1)[n := d]
  }

  /** n allocations from a fresh store. */
  lemma {:induction false} GrowBy(d: Page, n: nat)
    requires n <= 4096
    ensures RunOk(FRESH, Allocs(Copies(d, n)))
    ensures RunModel(FRESH, Allocs(Copies(d, n))).model ==
      Model(n + 1, [], Filled(d, n), {})
  {
    if n > 0 {
      GrowBy(d, n - 1);
      assert Copies(d, n)[..n - 1] == Copies(d, n - 1);
      hide OpOk;
      var before := Model(n, [], Filled(d, n - 1), {});
      GrowOnce(before, d);
      OneMore(FRESH, Allocs(Copies(d, n - 1)), AllocOp(Some(d), ALL_IO));
    }
  }

  lemma GrowOnce(m: Model, d: Page)
    requires m.queue == [] && Writable(IndexToOffset(m.size))
    ensures OpOk(m, AllocOp(Some(d), ALL_IO))
    ensures StepModel(m, AllocOp(Some(d), ALL_IO)).0 == m.(size := m.size + 1, live := m.live[m.size := d])
  {
  }

  /** 4096 pages of d, then page 1 freed and reused with no source page: page 4096, which
      nobody touched, has lost its contents. */
  lemma StrayBlankBoundIsTight(f: File, d: Page)
    requires Means(f, FRESH) && d != BLANK
    ensures var full := Run(f, Allocs(Copies(d, 4096))).file;
      var freed := Free(full, 1, ALL_IO).file;
      var reused := Alloc(freed, None, ALL_IO);
      && Get(freed, BLANK, 4096, 1) == ReadResult(Ok, d)
      && reused.status == Ok && reused.index == 1
      && PageAt(reused.file, 4096) == BLANK
  {
    hide Alloc, Free, Means, PageAt;
    var ops := Allocs(Copies(d, 4096));
    GrowBy(d, 4096);
    RunRefines(f, FRESH, ops);
    var full, m := Run(f, ops).file, RunModel(FRESH, ops).model;
    FreeMeans(full, m, 1, ALL_IO);
    var freed, m1 := Free(full, 1, ALL_IO).file, FreeModel(m, 1, ALL_IO).model;
    GetMeans(freed, m1, BLANK, 4096, 1);
    ReuseNoneWrites(freed, m1);
  }

  // ----- the failing states are reached -----

  /** Two pages of d, allocated on a fresh store. */
  lemma TwoPages(f: File, d: Page) returns (g: File, m: Model)
    requires Means(f, FRESH)
    ensures g == Run(f, Allocs([d, d])).file && Means(g, m)
    ensures m == Model(3, [], Filled(d, 2), {}) && 1 in m.live && 2 in m.live && m.live[1] == d
  {
    hide Run, RunModel, Means;
    assert Copies(d, 2) == [d, d];
    GrowBy(d, 2);
    RunRefines(f, FRESH, Allocs([d, d]));
    g, m := Run(f, Allocs([d, d])).file, RunModel(FRESH, Allocs([d, d])).model;
  }

  /** On a fresh store: two allocations, a free of page 1, a free of page 2 that fails at its
      second write, and two allocations more hand out page 2, which was never given back. */
  lemma DoubleAllocationHappens(f: File, d: Page)
    requires Means(f, FRESH)
    ensures var g1 := Free(Run(f, Allocs([d, d])).file, 1, ALL_IO).file;
      var failed := Free(g1, 2, 2);
      var first := Alloc(failed.file, Some(d), ALL_IO);
      var second := Alloc(first.file, Some(d), ALL_IO);
      && failed.status == BadWrite && Get(g1, BLANK, 2, 1).status == Ok
      && first.status == Ok && first.index == 1
      && second.status == Ok && second.index == 2
  {
    hide Means, Run, Free, Alloc, Get;
    var g, m := TwoPages(f, d);
    FreeMeans(g, m, 1, ALL_IO);
    var g1, m1 := Free(g, 1, ALL_IO).file, FreeModel(m, 1, ALL_IO).model;
    assert m1.queue == [1] && 2 in m1.live;
    GetMeans(g1, m1, BLANK, 2, 1);
    FailedFreeDoubleAllocation(g1, m1, 2, d, d);
  }
}
