/** The two lists and the lookup table of the buffer manager, and what each call does to them
    (src/lib/buffer_manager.h:53-64). */
module PoolInvariant {
  import opened Wrappers
  import opened Sequences
  import opened Files
  import opened Store
  import opened Pool

  predicate IsPinned(meta: MetaFrame) {
    meta.state == Pinned || meta.state == PinnedDirty
  }

  function First(l: seq<nat>): Option<nat> {
    if l == [] then None else Some(l[0])
  }

  function After(l: seq<nat>, i: nat): Option<nat> {
    if i + 1 < |l| then Some(l[i + 1]) else None
  }

  /** Following next pointers from link passes exactly the frames of l, and ends. */
  ghost predicate Linked(metas: seq<MetaFrame>, link: Option<nat>, l: seq<nat>) {
    link == First(l) && forall i | 0 <= i < |l| :: l[i] < |metas| && metas[l[i]].next == After(l, i)
  }

  /** l holds every frame in the state st, once each, and no other frame. */
  ghost predicate Holds(metas: seq<MetaFrame>, l: seq<nat>, st: FrameState) {
    && NoDup(l)
    && (forall f | f in l :: f < |metas| && metas[f].state == st)
    && (forall f | 0 <= f < |metas| && metas[f].state == st :: f in l)
  }

  ghost predicate IsList(metas: seq<MetaFrame>, link: Option<nat>, l: seq<nat>, st: FrameState) {
    Linked(metas, link, l) && Holds(metas, l, st)
  }

  /** The free list holds every FS_UNPINNED frame and the writeback list every
      FS_UNPINNED_DIRTY one, once each, though both run through the same field. */
  ghost predicate Lists(s: Pool, free: seq<nat>, wb: seq<nat>) {
    IsList(s.metaframes, s.freelist, free, Unpinned) && IsList(s.metaframes, s.writeback, wb, UnpinnedDirty)
  }

  /** The table is the inverse of the page numbers of the pinned frames. */
  ghost predicate TableOk(s: Pool) {
    && (forall p | p in s.table ::
          s.table[p] < |s.metaframes| && IsPinned(s.metaframes[s.table[p]]) && s.metaframes[s.table[p]].index == p)
    && (forall f | 0 <= f < |s.metaframes| && IsPinned(s.metaframes[f]) ::
          s.metaframes[f].index in s.table && s.table[s.metaframes[f].index] == f)
  }

  ghost predicate Tidy(s: Pool, free: seq<nat>, wb: seq<nat>) {
    Pointers(s) && Lists(s, free, wb) && TableOk(s)
  }

  // ----- taking a frame off a list, putting one on, changing one -----

  lemma Drop(metas: seq<MetaFrame>, link: Option<nat>, l: seq<nat>, st: FrameState, meta: MetaFrame)
    requires IsList(metas, link, l, st) && l != [] && meta.state != st
    ensures IsList(metas[l[0] := meta], metas[l[0]].next, l[1..], st)
  {
    LinkedDrop(metas, link, l, meta);
    HoldsDrop(metas, l, st, meta);
  }

  lemma HoldsDrop(metas: seq<MetaFrame>, l: seq<nat>, st: FrameState, meta: MetaFrame)
    requires Holds(metas, l, st) && l != [] && l[0] < |metas| && meta.state != st
    ensures Holds(metas[l[0] := meta], l[1..], st)
  {
    assert forall f | f in l :: f == l[0] || f in l[1..];
    assert forall f | f in l[1..] :: f in l && f != l[0];
    assert NoDup(l[1..]);
  }

  lemma LinkedDrop(metas: seq<MetaFrame>, link: Option<nat>, l: seq<nat>, meta: MetaFrame)
    requires Linked(metas, link, l) && l != [] && NoDup(l)
    ensures Linked(metas[l[0] := meta], metas[l[0]].next, l[1..])
  {
  }

  lemma Push(metas: seq<MetaFrame>, link: Option<nat>, l: seq<nat>, st: FrameState, f: nat, meta: MetaFrame)
    requires IsList(metas, link, l, st) && f < |metas| && metas[f].state != st
    requires meta.state == st && meta.next == link
    ensures IsList(metas[f := meta], Some(f), [f] + l, st)
  {
    LinkedPush(metas, link, l, f, meta);
  }

  lemma LinkedPush(metas: seq<MetaFrame>, link: Option<nat>, l: seq<nat>, f: nat, meta: MetaFrame)
    requires Linked(metas, link, l) && f < |metas| && f !in l && meta.next == link
    ensures Linked(metas[f := meta], Some(f), [f] + l)
  {
  }

  lemma LinkedKeep(metas: seq<MetaFrame>, link: Option<nat>, l: seq<nat>, f: nat, meta: MetaFrame)
    requires Linked(metas, link, l) && f < |metas| && (f !in l || meta.next == metas[f].next)
    ensures Linked(metas[f := meta], link, l)
  {
  }

  lemma Keep(metas: seq<MetaFrame>, link: Option<nat>, l: seq<nat>, st: FrameState, f: nat, meta: MetaFrame)
    requires IsList(metas, link, l, st) && f < |metas|
    requires meta.state == st <==> metas[f].state == st
    requires meta.state == st ==> meta.next == metas[f].next
    ensures IsList(metas[f := meta], link, l, st)
  {
    LinkedKeep(metas, link, l, f, meta);
  }

  // ----- buff_create -----

  function UpTo(n: nat): (r: seq<nat>)
    ensures |r| == n && forall i | 0 <= i < n :: r[i] == i
  {
    seq(n, i => i)
  }

  lemma CreatedIsTidy(frames: nat, file: File)
    requires 0 < frames
    ensures Tidy(Created(frames, file), UpTo(frames), [])
  {
    forall f | 0 <= f < frames
      ensures f in UpTo(frames)
    {
      assert UpTo(frames)[f] == f;
    }
  }

  // ----- buff_pin, buff_unpin, buff_mark_page -----

  predicate PinMoves(s: Pool, index: int, io: nat)
    requires Pointers(s)
  {
    index != METADATA && s.freelist.Some? && index !in s.table
    && Get(s.file, s.buffer[s.freelist.value], index, io).status == Ok
  }

  lemma PinTidy(s: Pool, free: seq<nat>, wb: seq<nat>, index: int, io: nat)
    requires Tidy(s, free, wb)
    ensures PinMoves(s, index, io) ==> free != [] && Tidy(Pin(s, index, io).pool, free[1..], wb)
    ensures !PinMoves(s, index, io) ==> Pin(s, index, io).pool == s
  {
    if PinMoves(s, index, io) {
      var f := s.freelist.value;
      var meta := s.metaframes[f].(state := Pinned, index := index);
      assert free != [] && free[0] == f && f in free;
      PinTable(s, index, io);
      hide Get, Linked, Holds, TableOk;
      Drop(s.metaframes, s.freelist, free, Unpinned, meta);
      Keep(s.metaframes, s.writeback, wb, UnpinnedDirty, f, meta);
    }
  }

  lemma PinTable(s: Pool, index: int, io: nat)
    requires Pointers(s) && TableOk(s) && PinMoves(s, index, io)
    requires s.metaframes[s.freelist.value].state == Unpinned
    ensures TableOk(Pin(s, index, io).pool)
  {
    hide Get;
  }

  lemma UnpinTidy(s: Pool, free: seq<nat>, wb: seq<nat>, f: nat)
    requires Tidy(s, free, wb) && f < |s.metaframes|
    ensures var r := Unpin(s, f).pool;
      Tidy(r, if s.metaframes[f].state == Pinned then [f] + free else free,
              if s.metaframes[f].state == PinnedDirty then [f] + wb else wb)
  {
    UnpinTable(s, f);
    var meta := s.metaframes[f];
    hide Linked, Holds, TableOk;
    match meta.state {
      case Pinned =>
        var meta' := meta.(state := Unpinned, next := s.freelist);
        Push(s.metaframes, s.freelist, free, Unpinned, f, meta');
        Keep(s.metaframes, s.writeback, wb, UnpinnedDirty, f, meta');
      case PinnedDirty =>
        var meta' := meta.(state := UnpinnedDirty, next := s.writeback);
        Push(s.metaframes, s.writeback, wb, UnpinnedDirty, f, meta');
        Keep(s.metaframes, s.freelist, free, Unpinned, f, meta');
      case _ =>
    }
  }

  lemma UnpinTable(s: Pool, f: nat)
    requires TableOk(s) && f < |s.metaframes|
    ensures TableOk(Unpin(s, f).pool)
  {
  }

  /** Changing the state of a pinned frame to the other pinned state. */
  lemma RepinTidy(s: Pool, free: seq<nat>, wb: seq<nat>, f: nat, st: FrameState)
    requires Tidy(s, free, wb) && f < |s.metaframes| && IsPinned(s.metaframes[f])
    requires st == Pinned || st == PinnedDirty
    ensures Tidy(s.(metaframes := s.metaframes[f := s.metaframes[f].(state := st)]), free, wb)
  {
    var meta := s.metaframes[f].(state := st);
    assert TableOk(s.(metaframes := s.metaframes[f := meta]));
    hide Linked, Holds, TableOk;
    Keep(s.metaframes, s.freelist, free, Unpinned, f, meta);
    Keep(s.metaframes, s.writeback, wb, UnpinnedDirty, f, meta);
  }

  // ----- buff_flush_all -----

  /** The loop changes the states of the frames it is given, and nothing about any frame's
      place. */
  lemma {:induction false} FlushStates(s: Pool, list: seq<nat>, ups: seq<bool>)
    requires Frames(s, list)
    ensures var r := FlushList(s, list, ups);
      forall f | 0 <= f < |s.metaframes| ::
        r.metaframes[f].state == s.metaframes[f].state || (f in list && r.metaframes[f].state == Unpinned)
  {
    if list != [] {
      hide Put;
      FlushStates(s, list[..|list| - 1], ups);
    }
  }

  /** What the relinking makes of the free list ... */
  function NewFree(metas: seq<MetaFrame>, list: seq<nat>, free: seq<nat>): (r: seq<nat>)
    requires forall i | 0 <= i < |list| :: list[i] < |metas|
    ensures forall f :: f in r <==> f in free || (f in list && metas[f].state == Unpinned)
  {
    if list == [] then free
    else
      var f := list[|list| - 1];
      var rest := NewFree(metas, list[..|list| - 1], free);
      if metas[f].state == Unpinned then [f] + rest else rest
  }

  /** ... and of the writeback list. */
  function NewWriteback(metas: seq<MetaFrame>, list: seq<nat>): (r: seq<nat>)
    requires forall i | 0 <= i < |list| :: list[i] < |metas|
    ensures forall f :: f in r <==> f in list && metas[f].state != Unpinned
  {
    if list == [] then []
    else
      var f := list[|list| - 1];
      var rest := NewWriteback(metas, list[..|list| - 1]);
      if metas[f].state != Unpinned then [f] + rest else rest
  }

  /** What is known of the two lists while the relinking is under way. */
  ghost predicate Relinked(r: Pool, s: Pool, free: seq<nat>, list: seq<nat>)
    requires forall i | 0 <= i < |list| :: list[i] < |s.metaframes|
  {
    && Linked(r.metaframes, r.freelist, NewFree(s.metaframes, list, free))
    && Linked(r.metaframes, r.writeback, NewWriteback(s.metaframes, list))
    && NoDup(NewFree(s.metaframes, list, free)) && NoDup(NewWriteback(s.metaframes, list))
  }

  lemma {:induction false} ReclaimLinks(s: Pool, free: seq<nat>, list: seq<nat>)
    requires Frames(s, list) && NoDup(list) && NoDup(free)
    requires Linked(s.metaframes, s.freelist, free) && forall f | f in list :: f !in free
    ensures Relinked(ReclaimList(s, list), s, free, list)
  {
    if list != [] {
      var init, f := list[..|list| - 1], list[|list| - 1];
      assert f in list && f !in init;
      assert forall x | x in init :: x in list;
      ReclaimLinks(s, free, init);
      var t, r := ReclaimList(s, init), ReclaimList(s, list);
      var fr, wb := NewFree(s.metaframes, init, free), NewWriteback(s.metaframes, init);
      assert f !in fr && f !in wb;
      NoDupCons(f, fr);
      NoDupCons(f, wb);
      hide Linked, NoDup;
      if t.metaframes[f].state == Unpinned {
        LinkedPush(t.metaframes, t.freelist, fr, f, r.metaframes[f]);
        LinkedKeep(t.metaframes, t.writeback, wb, f, r.metaframes[f]);
      } else {
        LinkedPush(t.metaframes, t.writeback, wb, f, r.metaframes[f]);
        LinkedKeep(t.metaframes, t.freelist, fr, f, r.metaframes[f]);
      }
    }
  }

  lemma {:induction false} ReclaimPointers(s: Pool, list: seq<nat>)
    requires Pointers(s) && Frames(s, list)
    ensures Pointers(ReclaimList(s, list))
  {
    if list != [] {
      ReclaimPointers(s, list[..|list| - 1]);
    }
  }

  lemma FlushListTidy(s: Pool, free: seq<nat>, wb: seq<nat>, ups: seq<bool>)
    requires Tidy(s, free, wb)
    ensures Frames(s, wb)
    ensures var t := FlushList(s, wb, ups);
      && Pointers(t) && TableOk(t)
      && Linked(t.metaframes, t.freelist, free)
      && (forall f | 0 <= f < |t.metaframes| && t.metaframes[f].state == Unpinned :: f in free || f in wb)
      && (forall f | 0 <= f < |t.metaframes| && t.metaframes[f].state == UnpinnedDirty :: f in wb)
      && (forall f | f in free :: t.metaframes[f].state == Unpinned)
      && (forall f | f in wb :: t.metaframes[f].state == Unpinned || t.metaframes[f].state == UnpinnedDirty)
  {
    assert forall i | 0 <= i < |wb| :: wb[i] in wb;
    FlushStates(s, wb, ups);
    FlushListLinks(s, FlushList(s, wb, ups), free, wb);
    FlushListTable(s, FlushList(s, wb, ups), wb);
    hide FlushList, Linked, TableOk, Pointers, NoDup;
  }

  /** The loop leaves the pointers ... */
  lemma FlushListLinks(s: Pool, t: Pool, free: seq<nat>, wb: seq<nat>)
    requires Tidy(s, free, wb) && |t.metaframes| == |s.metaframes| && t.buffer == s.buffer
    requires t.freelist == s.freelist && t.writeback == s.writeback && t.table == s.table
    requires forall f | 0 <= f < |s.metaframes| :: t.metaframes[f].next == s.metaframes[f].next
    ensures Pointers(t) && Linked(t.metaframes, t.freelist, free)
  {
    hide Holds, TableOk;
  }

  /** ... and the pinned frames. */
  lemma FlushListTable(s: Pool, t: Pool, wb: seq<nat>)
    requires TableOk(s) && |t.metaframes| == |s.metaframes| && t.table == s.table
    requires forall f | 0 <= f < |s.metaframes| :: t.metaframes[f].index == s.metaframes[f].index
    requires forall f | f in wb :: f < |s.metaframes| && s.metaframes[f].state == UnpinnedDirty
    requires forall f | 0 <= f < |s.metaframes| ::
      t.metaframes[f].state == s.metaframes[f].state || (f in wb && t.metaframes[f].state == Unpinned)
    ensures TableOk(t)
  {
  }

  lemma FlushTidy(s: Pool, free: seq<nat>, wb: seq<nat>, ups: seq<bool>)
    requires Tidy(s, free, wb)
    ensures Frames(s, wb)
    ensures var flushed := FlushList(s, wb, ups).metaframes;
      Tidy(Flush(s, wb, ups), NewFree(flushed, wb, free), NewWriteback(flushed, wb))
  {
    FlushListTidy(s, free, wb, ups);
    var t := FlushList(s, wb, ups);
    ReclaimLinks(t, free, wb);
    ReclaimPointers(t, wb);
    ReclaimHolds(t, free, wb);
    hide Linked, Holds, Pointers, FlushList, ReclaimList, TableOk;
  }

  /** Each cleaned frame is on the free list now, and each frame still dirty on the other. */
  lemma ReclaimHolds(t: Pool, free: seq<nat>, wb: seq<nat>)
    requires Frames(t, wb) && TableOk(t) && Relinked(ReclaimList(t, wb), t, free, wb)
    requires forall f | 0 <= f < |t.metaframes| && t.metaframes[f].state == Unpinned :: f in free || f in wb
    requires forall f | 0 <= f < |t.metaframes| && t.metaframes[f].state == UnpinnedDirty :: f in wb
    requires forall f | f in free :: f < |t.metaframes| && t.metaframes[f].state == Unpinned
    requires forall f | f in wb :: t.metaframes[f].state == Unpinned || t.metaframes[f].state == UnpinnedDirty
    ensures var r := ReclaimList(t, wb);
      && TableOk(r)
      && Holds(r.metaframes, NewFree(t.metaframes, wb, free), Unpinned)
      && Holds(r.metaframes, NewWriteback(t.metaframes, wb), UnpinnedDirty)
  {
    assert forall f | f in wb :: f < |t.metaframes|;
    hide Linked, NoDup, Holds;
    ReclaimTable(t, ReclaimList(t, wb));
    FreeHolds(t.metaframes, ReclaimList(t, wb).metaframes, free, wb);
    WritebackHolds(t.metaframes, ReclaimList(t, wb).metaframes, wb);
  }

  lemma ReclaimTable(t: Pool, r: Pool)
    requires TableOk(t) && r.table == t.table && |r.metaframes| == |t.metaframes|
    requires forall f | 0 <= f < |t.metaframes| ::
      r.metaframes[f].state == t.metaframes[f].state && r.metaframes[f].index == t.metaframes[f].index
    ensures TableOk(r)
  {
  }

  lemma FreeHolds(metas: seq<MetaFrame>, metas': seq<MetaFrame>, free: seq<nat>, wb: seq<nat>)
    requires |metas'| == |metas| && forall f | 0 <= f < |metas| :: metas'[f].state == metas[f].state
    requires forall i | 0 <= i < |wb| :: wb[i] < |metas|
    requires forall f | 0 <= f < |metas| && metas[f].state == Unpinned :: f in free || f in wb
    requires forall f | f in free :: f < |metas| && metas[f].state == Unpinned
    requires NoDup(NewFree(metas, wb, free))
    ensures Holds(metas', NewFree(metas, wb, free), Unpinned)
  {
    assert forall f | f in wb :: f < |metas|;
    hide NoDup, NewFree;
  }

  lemma WritebackHolds(metas: seq<MetaFrame>, metas': seq<MetaFrame>, wb: seq<nat>)
    requires |metas'| == |metas| && forall f | 0 <= f < |metas| :: metas'[f].state == metas[f].state
    requires forall i | 0 <= i < |wb| :: wb[i] < |metas|
    requires forall f | 0 <= f < |metas| && metas[f].state == UnpinnedDirty :: f in wb
    requires forall f | f in wb :: f < |metas| && (metas[f].state == Unpinned || metas[f].state == UnpinnedDirty)
    requires NoDup(NewWriteback(metas, wb))
    ensures Holds(metas', NewWriteback(metas, wb), UnpinnedDirty)
  {
    hide NoDup, NewWriteback;
  }

  // ----- every frame is somewhere -----

  function PinnedFrames(metas: seq<MetaFrame>): (r: set<nat>)
    ensures forall f :: f in r <==> 0 <= f < |metas| && IsPinned(metas[f])
  {
    set f | 0 <= f < |metas| && IsPinned(metas[f])
  }

  /** Pinned, free and waiting frames add up to all frames: none is lost, none is on two
      lists. */
  lemma FramesAreConserved(s: Pool, free: seq<nat>, wb: seq<nat>)
    requires Tidy(s, free, wb)
    ensures |PinnedFrames(s.metaframes)| + |free| + |wb| == |s.metaframes|
  {
    SizeOfElements(free);
    SizeOfElements(wb);
    ThreeWays(|s.metaframes|, PinnedFrames(s.metaframes), Elements(free), Elements(wb));
  }

  // ----- the lists as functions of the pointers -----

  /** The frames met by following next pointers from link, for at most fuel steps. */
  function Chain(metas: seq<MetaFrame>, link: Option<nat>, fuel: nat): (l: seq<nat>)
    ensures forall i | 0 <= i < |l| :: l[i] < |metas|
    decreases fuel
  {
    if link == None || fuel == 0 || link.value >= |metas| then []
    else [link.value] + Chain(metas, metas[link.value].next, fuel - 1)
  }

  lemma {:induction false} ChainIsList(metas: seq<MetaFrame>, link: Option<nat>, l: seq<nat>, fuel: nat)
    requires Linked(metas, link, l) && |l| <= fuel
    ensures Chain(metas, link, fuel) == l
    decreases fuel
  {
    if l != [] {
      assert Linked(metas, metas[l[0]].next, l[1..]);
      ChainIsList(metas, metas[l[0]].next, l[1..], fuel - 1);
    }
  }

  function FreeList(s: Pool): seq<nat> {
    Chain(s.metaframes, s.freelist, |s.metaframes|)
  }

  function Writeback(s: Pool): seq<nat> {
    Chain(s.metaframes, s.writeback, |s.metaframes|)
  }

  /** Neither list runs in a circle: walking it for as many steps as there are frames meets
      all of it. */
  lemma ListsAreWalked(s: Pool, free: seq<nat>, wb: seq<nat>)
    requires Tidy(s, free, wb)
    ensures FreeList(s) == free && Writeback(s) == wb
  {
    FramesAreConserved(s, free, wb);
    ChainIsList(s.metaframes, s.freelist, free, |s.metaframes|);
    ChainIsList(s.metaframes, s.writeback, wb, |s.metaframes|);
  }
}
