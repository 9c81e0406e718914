/** What the bytes of a store mean: a queue of free pages and a map of live ones, and how
    every call on the bytes moves that meaning. */
module StoreInvariant {
  import opened Wrappers
  import opened Sequences
  import opened Words
  import opened Files
  import opened Store

  /** The meaning of a store.  loose holds the free pages whose link is not known to be right:
      a free_page that fails half-way leaves the last one so, an alloc_page that fails between
      its two writes the first one. */
  datatype Model = Model(size: nat, queue: seq<nat>, live: map<nat, Page>, loose: set<nat>)

  const FRESH := Model(1, [], map[], {})

  function HeadWord(queue: seq<nat>): int {
    if queue == [] then EMPTY_LIST else IndexToOffset(queue[0])
  }

  function TailWord(queue: seq<nat>): int {
    if queue == [] then EMPTY_LIST else IndexToOffset(queue[|queue| - 1])
  }

  /** The link that belongs in the page at place i. */
  function NextWord(queue: seq<nat>, i: nat): int {
    if i + 1 < |queue| then IndexToOffset(queue[i + 1]) else EMPTY_LIST
  }

  /** Every page but the metadata page is either free or live, never both. */
  ghost predicate Partition(m: Model) {
    && NoDup(m.queue)
    && (forall p | p in m.queue :: 0 < p < m.size && p !in m.live)
    && (forall p | p in m.live :: 0 < p < m.size)
    && (forall p | 0 < p < m.size :: p in m.queue || p in m.live)
  }

  ghost predicate MetaIs(meta: Page, m: Model) {
    Size(meta) == m.size && Head(meta) == HeadWord(m.queue) && Tail(meta) == TailWord(m.queue)
  }

  /** Each free page that is not loose holds the link to the next one, the last one the end
      link, and nothing else. */
  ghost predicate Chained(f: File, queue: seq<nat>, loose: set<nat>) {
    forall i | 0 <= i < |queue| && queue[i] !in loose :: PageAt(f, queue[i]) == FreeImage(NextWord(queue, i))
  }

  ghost predicate Contents(f: File, live: map<nat, Page>) {
    forall p | p in live :: PageAt(f, p) == live[p]
  }

  /** All of the invariant but the metadata page. */
  ghost predicate Body(f: File, m: Model) {
    && 1 <= m.size && m.size * PAGESIZE <= |f| <= MAX_FILE
    && Partition(m)
    && Chained(f, m.queue, m.loose)
    && Contents(f, m.live)
    && (forall p | p in m.loose :: p in m.queue)
  }

  /** The invariant of the allocator: the bytes of f mean m. */
  ghost predicate Means(f: File, m: Model) {
    Body(f, m) && MetaIs(PageAt(f, 0), m)
  }

  // ----- the meaning of each call -----

  datatype AllocOutcome = AllocOutcome(model: Model, status: Status, index: int)
  datatype Outcome = Outcome(model: Model, status: Status)

  /** A page handed out again with no source page keeps the bytes it had as a free page. */
  function Reused(m: Model, src: Option<Page>): Page
    requires m.queue != []
  {
    src.GetOr(FreeImage(HeadWord(m.queue[1..])))
  }

  function Pop(m: Model, src: Option<Page>): Model
    requires m.queue != []
  {
    m.(queue := m.queue[1..], live := m.live[m.queue[0] := Reused(m, src)])
  }

  function Grow(m: Model, src: Option<Page>): Model {
    m.(size := m.size + 1, live := m.live[m.size := src.GetOr(BLANK)])
  }

  /** The source page is in place and the metadata is not: the head is free as before, but
      its link is gone. */
  function HalfReused(m: Model, src: Option<Page>): Model
    requires m.queue != []
  {
    if src.Some? then m.(loose := m.loose + {m.queue[0]}) else m
  }

  function AllocModel(m: Model, src: Option<Page>, io: nat): AllocOutcome {
    if io < 1 then AllocOutcome(m, BadRead, ERR_SET)
    else if m.queue != [] then
      if io < 2 then AllocOutcome(m, BadRead, ERR_SET)
      else if io < 3 || !Writable(ReuseTarget(HeadWord(m.queue), src)) then AllocOutcome(m, BadWrite, ERR_SET)
      else if io < 4 then AllocOutcome(HalfReused(m, src), BadWrite, ERR_SET)
      else AllocOutcome(Pop(m, src), Ok, m.queue[0])
    else if io < 2 || !Writable(IndexToOffset(m.size)) then AllocOutcome(m, BadWrite, ERR_SET)
    else if src.Some? && io < 3 then AllocOutcome(m, BadWrite, STATUS_ERR)
    else if io < (if src.Some? then 4 else 3) then AllocOutcome(m, BadWrite, ERR_SET)
    else AllocOutcome(Grow(m, src), Ok, m.size)
  }

  /** The page that the blank write for a reused page really lands on. */
  function StrayPage(m: Model): int
    requires m.queue != []
  {
    IndexToOffset(m.queue[0])
  }

  /** The blank write misses every page of the store, or hits one that is blank already. */
  predicate StrayHarmless(m: Model)
    requires m.queue != []
  {
    m.size <= StrayPage(m) || (StrayPage(m) in m.live && m.live[StrayPage(m)] == BLANK)
  }

  /** When alloc_page does what AllocModel says: the page it takes off the list, whose link
      becomes the head, is not one that an earlier call left loose, and the blank write for a
      missing source page does no harm. */
  predicate AllocOk(m: Model, src: Option<Page>, io: nat) {
    m.queue != [] ==>
      && (src == None && 3 <= io ==> StrayHarmless(m))
      && (4 <= io ==> m.queue[0] !in m.loose)
  }

  /** The last free page has been given a link that the metadata does not know of. */
  function Loosened(m: Model): Model
    requires m.queue != []
  {
    m.(loose := m.loose + {m.queue[|m.queue| - 1]})
  }

  /** p goes to the end of the queue; the page before it is written anew. */
  function Pushed(m: Model, p: nat): Model {
    m.(queue := m.queue + [p], live := m.live - {p},
       loose := if m.queue == [] then m.loose else m.loose - {m.queue[|m.queue| - 1]})
  }

  function FreeModel(m: Model, p: int, io: nat): Outcome
    requires p in m.live
  {
    var wiped := m.live[p := FreeImage(EMPTY_LIST)];
    if io < 1 then Outcome(m, BadRead)
    else if io < 2 then Outcome(m, BadWrite)
    else if m.queue == [] then
      if io < 3 then Outcome(m.(live := wiped), BadWrite)
      else Outcome(Pushed(m, p), Ok)
    else if io < 3 then Outcome(Loosened(m), BadWrite)
    else if io < 4 then Outcome(Loosened(m).(live := wiped), BadWrite)
    else Outcome(Pushed(m, p), Ok)
  }

  function PutModel(m: Model, src: Page, p: int, io: nat): Outcome
    requires p in m.live
  {
    if io < 1 then Outcome(m, BadWrite) else Outcome(m.(live := m.live[p := src]), Ok)
  }

  // ----- create_new_backing -----

  lemma CreateMeansFresh(io: nat)
    ensures Create(io).status == Ok <==> 0 < io
    ensures Create(io).status == Ok ==> Means(Create(io).file, FRESH)
  {
    if 0 < io {
      FieldOfSetField(BLANK, 0, 1);
      FieldOfSetField(SetField(BLANK, 0, 1), 1, EMPTY_LIST);
      FieldOfSetField(SetField(SetField(BLANK, 0, 1), 1, EMPTY_LIST), 2, EMPTY_LIST);
      WritePage([], 0, FreshMeta());
    }
  }

  // ----- alloc_page -----

  /** What every call starts from. */
  lemma ReadMeta(f: File, m: Model)
    requires Means(f, m)
    ensures Readable(f, 0, PAGESIZE) && f[..PAGESIZE] == PageAt(f, 0)
    ensures HeadWord(m.queue) == EMPTY_LIST <==> m.queue == []
    ensures TailWord(m.queue) == EMPTY_LIST <==> m.queue == []
  {
  }

  lemma InStore(f: File, m: Model, p: nat)
    requires Body(f, m) && p < m.size
    ensures Writable(IndexToOffset(p)) && (p + 1) * PAGESIZE <= |f|
  {
  }

  lemma WordsInStore(f: File, m: Model)
    requires Body(f, m)
    ensures IsWord(m.size) && IsWord(m.size + 1)
    ensures IsWord(HeadWord(m.queue)) && IsWord(TailWord(m.queue))
  {
    if m.queue != [] {
      assert m.queue[0] in m.queue && m.queue[|m.queue| - 1] in m.queue;
    }
  }

  /** Writing the metadata page completes the invariant. */
  lemma WriteMeta(f: File, meta: Page, m: Model)
    requires Body(f, m) && MetaIs(meta, m)
    ensures Means(WriteAt(f, 0, meta), m)
  {
    hide WriteAt, PageAt, Field;
    WritePage(f, 0, meta);
    var g := WriteAt(f, 0, meta);
    BodyFrame(f, g, m);
  }

  lemma BodyFrame(f: File, g: File, m: Model)
    requires Body(f, m) && |f| <= |g| <= MAX_FILE
    requires forall p | 0 < p < m.size :: PageAt(g, p) == PageAt(f, p)
    ensures Body(g, m)
  {
    hide PageAt;
    forall i | 0 <= i < |m.queue|
      ensures PageAt(g, m.queue[i]) == PageAt(f, m.queue[i])
    {
      assert m.queue[i] in m.queue;
    }
  }

  /** Pages past the end of the store carry no meaning. */
  lemma WriteBeyond(f: File, m: Model, p: nat, d: Page)
    requires Means(f, m) && m.size <= p && Writable(p * PAGESIZE)
    ensures Means(WriteAt(f, p * PAGESIZE, d), m)
  {
    hide WriteAt, PageAt, Field;
    WritePage(f, p, d);
    BodyFrame(f, WriteAt(f, p * PAGESIZE, d), m);
  }

  /** Writing a live page changes what that page means and nothing else. */
  lemma WriteLive(f: File, m: Model, p: nat, d: Page)
    requires Means(f, m) && p in m.live
    ensures Writable(p * PAGESIZE)
    ensures Means(WriteAt(f, p * PAGESIZE, d), m.(live := m.live[p := d]))
  {
    hide WriteAt, PageAt, Field;
    InStore(f, m, p);
    WritePage(f, p, d);
    var g := WriteAt(f, p * PAGESIZE, d);
    forall i | 0 <= i < |m.queue|
      ensures PageAt(g, m.queue[i]) == PageAt(f, m.queue[i])
    {
      assert m.queue[i] in m.queue;
    }
    assert Partition(m.(live := m.live[p := d]));
  }

  lemma GrowBody(f: File, m: Model, d: Page)
    requires Body(f, m) && m.queue == []
    requires (m.size + 1) * PAGESIZE <= |f| && PageAt(f, m.size) == d
    ensures Body(f, m.(size := m.size + 1, live := m.live[m.size := d]))
  {
    hide PageAt;
  }

  lemma GrowMeans(f: File, m: Model, src: Option<Page>, io: nat)
    requires Means(f, m) && m.queue == []
    ensures var r := Alloc(f, src, io); var o := AllocModel(m, src, io);
      r.status == o.status && r.index == o.index && Means(r.file, o.model)
  {
    hide WriteAt, PageAt, Field, SetField;
    ReadMeta(f, m);
    var meta := PageAt(f, 0);
    var off := m.size * PAGESIZE;
    if 2 <= io && Writable(off) {
      WriteBeyond(f, m, m.size, BLANK);
      WritePage(f, m.size, BLANK);
      var filled := WriteAt(f, off, BLANK);
      if src.Some? {
        WriteBeyond(filled, m, m.size, src.value);
        WritePage(filled, m.size, src.value);
        filled := WriteAt(filled, off, src.value);
      }
      GrowBody(filled, m, src.GetOr(BLANK));
      WordsInStore(f, m);
      FieldOfSetField(meta, 0, m.size + 1);
      WriteMeta(filled, SetField(meta, 0, m.size + 1), Grow(m, src));
    }
  }

  lemma PopPartition(m: Model, d: Page)
    requires Partition(m) && m.queue != []
    ensures Partition(m.(queue := m.queue[1..], live := m.live[m.queue[0] := d]))
  {
    var h, rest := m.queue[0], m.queue[1..];
    assert m.queue == [h] + rest;
    assert h !in rest && h in m.queue;
    assert forall p | p in rest :: p in m.queue;
    assert forall p | p in m.queue :: p == h || p in rest;
  }

  /** Taking the head off the queue, once that page holds its new contents. */
  lemma PopBody(f: File, g: File, m: Model, d: Page)
    requires Body(f, m) && m.queue != [] && m.queue[0] !in m.loose
    requires |f| <= |g| <= MAX_FILE && PageAt(g, m.queue[0]) == d
    requires forall p | p in m.queue[1..] || p in m.live :: PageAt(g, p) == PageAt(f, p)
    ensures Body(g, m.(queue := m.queue[1..], live := m.live[m.queue[0] := d]))
  {
    hide PageAt;
    PopPartition(m, d);
    var rest := m.queue[1..];
    forall i | 0 <= i < |rest|
      ensures PageAt(g, rest[i]) == PageAt(f, m.queue[i + 1])
    {
      assert rest[i] in rest;
    }
  }

  lemma PopMetaIs(meta: Page, m: Model, d: Page)
    requires MetaIs(meta, m) && m.queue != [] && NoDup(m.queue)
    requires IsWord(HeadWord(m.queue[1..]))
    ensures MetaIs(PopMeta(meta, HeadWord(m.queue[1..])),
                   m.(queue := m.queue[1..], live := m.live[m.queue[0] := d]))
  {
    hide Field, SetField;
    var next := HeadWord(m.queue[1..]);
    FieldOfSetField(meta, 1, next);
    FieldOfSetField(SetField(meta, 1, next), 2, next);
  }

  /** The link that alloc_page reads from the head page. */
  lemma HeadLink(f: File, m: Model)
    requires Body(f, m) && m.queue != [] && m.queue[0] !in m.loose
    ensures IsWord(HeadWord(m.queue[1..]))
    ensures PageAt(f, m.queue[0]) == FreeImage(HeadWord(m.queue[1..]))
    ensures Link(PageAt(f, m.queue[0])) == HeadWord(m.queue[1..])
  {
    hide PageAt, Field, SetField;
    if 1 < |m.queue| {
      assert m.queue[1] in m.queue;
    }
    LinkOfFreeImage(HeadWord(m.queue[1..]));
  }

  /** Any first contents will do for the reused page, wherever they were written: what
      counts is that the other pages are as they were. */
  lemma PopMeans(f: File, g: File, m: Model, src: Option<Page>)
    requires Means(f, m) && m.queue != [] && m.queue[0] !in m.loose
    requires |f| <= |g| <= MAX_FILE && PageAt(g, m.queue[0]) == Reused(m, src)
    requires forall p | p in m.queue[1..] || p in m.live :: PageAt(g, p) == PageAt(f, p)
    ensures Means(WriteAt(g, 0, PopMeta(PageAt(f, 0), HeadWord(m.queue[1..]))), Pop(m, src))
  {
    hide WriteAt, PageAt, Field, SetField, PopMeta;
    HeadLink(f, m);
    PopBody(f, g, m, Reused(m, src));
    PopMetaIs(PageAt(f, 0), m, Reused(m, src));
    WriteMeta(g, PopMeta(PageAt(f, 0), HeadWord(m.queue[1..])), Pop(m, src));
  }

  lemma UnchangedMeans(f: File, g: File, m: Model)
    requires Means(f, m) && |f| <= |g| <= MAX_FILE
    requires forall p | 0 <= p < m.size :: PageAt(g, p) == PageAt(f, p)
    ensures Means(g, m)
  {
    hide PageAt, Field;
    BodyFrame(f, g, m);
  }

  /** The blank write for a reused page, when it is harmless, changes nothing that counts. */
  lemma StrayWrite(f: File, m: Model)
    requires Means(f, m) && m.queue != [] && StrayHarmless(m)
    requires Writable(IndexToOffset(StrayPage(m)))
    ensures var g := WriteAt(f, IndexToOffset(StrayPage(m)), BLANK);
      |f| <= |g| <= MAX_FILE && forall p | 0 <= p < m.size :: PageAt(g, p) == PageAt(f, p)
  {
    hide WriteAt, PageAt, Field;
    WritePage(f, StrayPage(m), BLANK);
  }

  /** A write to a free page can only undo the link of that page. */
  lemma WriteFree(f: File, m: Model, k: nat, d: Page)
    requires Means(f, m) && k < |m.queue|
    ensures Writable(IndexToOffset(m.queue[k]))
    ensures var t := m.queue[k]; var g := WriteAt(f, IndexToOffset(t), d);
      && Means(g, m.(loose := m.loose + {t}))
      && |g| == |f| && PageAt(g, t) == d
      && forall x | 0 <= x < m.size && x != t :: PageAt(g, x) == PageAt(f, x)
  {
    hide WriteAt, PageAt, Field, FreeImage;
    var t := m.queue[k];
    assert t in m.queue;
    InStore(f, m, t);
    WritePage(f, t, d);
    var g := WriteAt(f, IndexToOffset(t), d);
    forall i | 0 <= i < |m.queue| && m.queue[i] != t
      ensures PageAt(g, m.queue[i]) == PageAt(f, m.queue[i])
    {
      assert m.queue[i] in m.queue;
    }
  }

  lemma ReuseSome(f: File, m: Model, d: Page, io: nat)
    requires Means(f, m) && m.queue != [] && AllocOk(m, Some(d), io) && 3 <= io
    ensures var r := AllocReuse(f, PageAt(f, 0), Some(d), io); var o := AllocModel(m, Some(d), io);
      r.status == o.status && r.index == o.index && Means(r.file, o.model)
  {
    hide WriteAt, PageAt, Field, PopMeta;
    var h := m.queue[0];
    assert h in m.queue;
    InStore(f, m, h);
    ReadLink(f, h);
    WriteFree(f, m, 0, d);
    var g := WriteAt(f, IndexToOffset(h), d);
    if 4 <= io {
      forall p | p in m.queue[1..]
        ensures p != h && 0 < p < m.size
      {
        assert p in m.queue;
      }
      HeadLink(f, m);
      PopMeans(f, g, m, Some(d));
    }
  }

  lemma ReuseNone(f: File, m: Model, io: nat)
    requires Means(f, m) && m.queue != [] && AllocOk(m, None, io) && 3 <= io
    ensures var r := AllocReuse(f, PageAt(f, 0), None, io); var o := AllocModel(m, None, io);
      r.status == o.status && r.index == o.index && Means(r.file, o.model)
  {
    hide WriteAt, PageAt, Field, PopMeta;
    var h := m.queue[0];
    assert h in m.queue;
    InStore(f, m, h);
    ReadLink(f, h);
    if Writable(IndexToOffset(StrayPage(m))) {
      StrayWrite(f, m);
      var g := WriteAt(f, IndexToOffset(StrayPage(m)), BLANK);
      if io == 3 {
        UnchangedMeans(f, g, m);
      } else {
        forall p | p in m.queue[1..]
          ensures 0 < p < m.size
        {
          assert p in m.queue;
        }
        HeadLink(f, m);
        PopMeans(f, g, m, None);
      }
    }
  }

  /** alloc_page on the bytes is AllocModel on their meaning, whichever read or write fails. */
  lemma AllocMeans(f: File, m: Model, src: Option<Page>, io: nat)
    requires Means(f, m) && AllocOk(m, src, io)
    ensures var r := Alloc(f, src, io); var o := AllocModel(m, src, io);
      r.status == o.status && r.index == o.index && Means(r.file, o.model)
  {
    hide WriteAt, PageAt, Field, PopMeta, AllocGrow;
    ReadMeta(f, m);
    if m.queue == [] {
      GrowMeans(f, m, src, io);
    } else if io < 3 {
      assert m.queue[0] in m.queue;
      InStore(f, m, m.queue[0]);
    } else {
      match src {
        case Some(d) => ReuseSome(f, m, d, io);
        case None => ReuseNone(f, m, io);
      }
    }
  }

  // ----- free_page -----

  lemma PushPartition(m: Model, p: nat)
    requires Partition(m) && p in m.live
    ensures Partition(Pushed(m, p))
  {
    var q := m.queue + [p];
    assert forall x | x in m.queue :: x in q;
    assert p in q;
    assert forall x | x in q :: x in m.queue || x == p;
  }

  /** Linking p behind the old tail, and ending the list at p, appends p. */
  lemma PushBody(f: File, g: File, m: Model, p: nat)
    requires Body(f, m) && p in m.live
    requires |f| <= |g| <= MAX_FILE && PageAt(g, p) == FreeImage(EMPTY_LIST)
    requires m.queue != [] ==> PageAt(g, m.queue[|m.queue| - 1]) == FreeImage(IndexToOffset(p))
    requires forall x | x in m.live && x != p :: PageAt(g, x) == PageAt(f, x)
    requires forall i | 0 <= i < |m.queue| - 1 :: PageAt(g, m.queue[i]) == PageAt(f, m.queue[i])
    ensures Body(g, Pushed(m, p))
  {
    hide PageAt, FreeImage;
    PushPartition(m, p);
    var q := m.queue + [p];
    forall i | 0 <= i < |q| && q[i] !in Pushed(m, p).loose
      ensures PageAt(g, q[i]) == FreeImage(NextWord(q, i))
    {
      if i < |m.queue| - 1 {
        assert q[i + 1] == m.queue[i + 1] && m.queue[i] != m.queue[|m.queue| - 1];
      }
    }
  }

  lemma PushMetaIs(meta: Page, m: Model, p: nat)
    requires MetaIs(meta, m) && IsWord(IndexToOffset(p))
    ensures var tailed := SetField(meta, 2, IndexToOffset(p));
      var o := Pushed(m, p);
      m.queue != [] ==> MetaIs(tailed, o)
    ensures var first := SetField(SetField(meta, 1, IndexToOffset(p)), 2, IndexToOffset(p));
      var o := Pushed(m, p);
      m.queue == [] ==> MetaIs(first, o)
  {
    hide Field, SetField;
    var loc := IndexToOffset(p);
    FieldOfSetField(meta, 2, loc);
    FieldOfSetField(meta, 1, loc);
    FieldOfSetField(SetField(meta, 1, loc), 2, loc);
  }

  lemma FreeFirstMeans(f: File, m: Model, p: nat, io: nat)
    requires Means(f, m) && p in m.live && m.queue == [] && 2 <= io
    ensures var r := FreeFirst(f, PageAt(f, 0), IndexToOffset(p), io); var o := FreeModel(m, p, io);
      r.status == o.status && Means(r.file, o.model)
  {
    hide WriteAt, PageAt, Field, SetField, FreeImage;
    InStore(f, m, p);
    WritePage(f, p, FreeImage(EMPTY_LIST));
    WriteLive(f, m, p, FreeImage(EMPTY_LIST));
    var g := WriteAt(f, IndexToOffset(p), FreeImage(EMPTY_LIST));
    if 3 <= io {
      PushBody(f, g, m, p);
      assert m.queue + [p] == [p];
      PushMetaIs(PageAt(f, 0), m, p);
      var meta := SetField(SetField(PageAt(f, 0), 1, IndexToOffset(p)), 2, IndexToOffset(p));
      WriteMeta(g, meta, FreeModel(m, p, io).model);
    }
  }

  /** A write to the last free page can only undo its link. */
  lemma WriteTail(f: File, m: Model, d: Page)
    requires Means(f, m) && m.queue != []
    ensures Writable(TailWord(m.queue))
    ensures var t := m.queue[|m.queue| - 1]; var g := WriteAt(f, TailWord(m.queue), d);
      && Means(g, Loosened(m))
      && |g| == |f| && PageAt(g, t) == d
      && forall x | 0 <= x < m.size && x != t :: PageAt(g, x) == PageAt(f, x)
  {
    WriteFree(f, m, |m.queue| - 1, d);
  }

  lemma FreeAppendMeans(f: File, m: Model, p: nat, io: nat)
    requires Means(f, m) && p in m.live && m.queue != [] && 2 <= io
    ensures var r := FreeAppend(f, PageAt(f, 0), IndexToOffset(p), io); var o := FreeModel(m, p, io);
      r.status == o.status && Means(r.file, o.model)
  {
    hide WriteAt, PageAt, Field, SetField, FreeImage;
    var t := m.queue[|m.queue| - 1];
    assert t in m.queue;
    InStore(f, m, p);
    WriteTail(f, m, FreeImage(IndexToOffset(p)));
    var g := WriteAt(f, TailWord(m.queue), FreeImage(IndexToOffset(p)));
    if 3 <= io {
      WriteLive(g, Loosened(m), p, FreeImage(EMPTY_LIST));
      WritePage(g, p, FreeImage(EMPTY_LIST));
      var h := WriteAt(g, IndexToOffset(p), FreeImage(EMPTY_LIST));
      if 4 <= io {
        AppendedBody(f, g, h, m, p);
        PushMetaIs(PageAt(f, 0), m, p);
        WriteMeta(h, SetField(PageAt(f, 0), 2, IndexToOffset(p)), FreeModel(m, p, io).model);
      }
    }
  }

  lemma AppendedBody(f: File, g: File, h: File, m: Model, p: nat)
    requires Body(f, m) && p in m.live && m.queue != []
    requires |f| == |g| == |h|
    requires PageAt(g, m.queue[|m.queue| - 1]) == FreeImage(IndexToOffset(p))
    requires forall x | 0 <= x < m.size && x != m.queue[|m.queue| - 1] :: PageAt(g, x) == PageAt(f, x)
    requires PageAt(h, p) == FreeImage(EMPTY_LIST)
    requires forall x | 0 <= x < m.size && x != p :: PageAt(h, x) == PageAt(g, x)
    ensures Body(h, Pushed(m, p))
  {
    hide PageAt, FreeImage;
    var t := m.queue[|m.queue| - 1];
    assert t in m.queue && t != p;
    forall i | 0 <= i < |m.queue| - 1
      ensures PageAt(h, m.queue[i]) == PageAt(f, m.queue[i])
    {
      assert m.queue[i] in m.queue;
    }
    PushBody(f, h, m, p);
  }

  /** free_page on the bytes is FreeModel on their meaning, whichever read or write fails. */
  lemma FreeMeans(f: File, m: Model, p: nat, io: nat)
    requires Means(f, m) && p in m.live
    ensures var r := Free(f, p, io); var o := FreeModel(m, p, io);
      r.status == o.status && Means(r.file, o.model)
  {
    hide WriteAt, PageAt, Field, SetField, FreeImage;
    ReadMeta(f, m);
    if 2 <= io {
      if m.queue == [] {
        FreeFirstMeans(f, m, p, io);
      } else {
        FreeAppendMeans(f, m, p, io);
      }
    }
  }

  // ----- get_page, put_page -----

  lemma GetMeans(f: File, m: Model, dest: Page, p: nat, io: nat)
    requires Means(f, m) && p in m.live
    ensures Get(f, dest, p, io) == if io < 1 then ReadResult(BadRead, dest) else ReadResult(Ok, m.live[p])
  {
    InStore(f, m, p);
    assert PageAt(f, p) == m.live[p];
  }

  lemma PutMeans(f: File, m: Model, src: Page, p: nat, io: nat)
    requires Means(f, m) && p in m.live
    ensures var r := Put(f, src, p, io); var o := PutModel(m, src, p, io);
      r.status == o.status && Means(r.file, o.model)
  {
    hide WriteAt, PageAt;
    InStore(f, m, p);
    if 1 <= io {
      WriteLive(f, m, p, src);
    }
  }
}
