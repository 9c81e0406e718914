/** The buffer manager (src/lib/buffer_manager.c) as functions on one value: the frames, the
    two lists threaded through them, the lookup table and the store file underneath.

    A frame is named by its number in the buffer; the table maps page numbers to frame
    numbers, which is what buffer_manager.h:63 says it is for. */
module Pool {
  import opened Wrappers
  import opened Words
  import opened Files
  import opened Store

  datatype FrameState = Pinned | Unpinned | PinnedDirty | UnpinnedDirty

  /** next is meta_frame.next_free_or_dirty, None for NULL. */
  datatype MetaFrame = MetaFrame(state: FrameState, index: int, next: Option<nat>)

  datatype Pool = Pool(
    buffer: seq<Page>,
    metaframes: seq<MetaFrame>,
    freelist: Option<nat>,
    writeback: Option<nat>,
    table: map<int, nat>,
    file: File)

  const METADATA: int := 0

  datatype PinResult = PinResult(pool: Pool, status: Status, frame: Option<nat>)
  datatype PinOutcome = Finished(result: PinResult) | NullDereference
  datatype PoolResult = PoolResult(pool: Pool, status: Status)
  datatype PairResult = PairResult(pool: Pool, status: Status, page: int, frame: Option<nat>)

  /** Every list pointer and table entry names a frame. */
  ghost predicate Pointers(s: Pool) {
    && |s.buffer| == |s.metaframes|
    && (s.freelist.Some? ==> s.freelist.value < |s.metaframes|)
    && (s.writeback.Some? ==> s.writeback.value < |s.metaframes|)
    && (forall f | 0 <= f < |s.metaframes| ::
          s.metaframes[f].next.Some? ==> s.metaframes[f].next.value < |s.metaframes|)
    && (forall p | p in s.table :: s.table[p] < |s.metaframes|)
  }

  // ----- buff_create -----

  function InitialFrames(frames: nat): seq<MetaFrame> {
    seq(frames, i => MetaFrame(Unpinned, 0, if 0 <= i < frames - 1 then Some(i + 1) else None))
  }

  function BlankFrames(frames: nat): (buffer: seq<Page>)
    ensures |buffer| == frames && forall f | 0 <= f < frames :: buffer[f] == BLANK
  {
    seq(frames, _ => BLANK)
  }

  /** The free list starts at the first frame, even where there is none. */
  function Created(frames: nat, file: File): Pool {
    Pool(BlankFrames(frames), InitialFrames(frames), Some(0), None, map[], file)
  }

  // ----- buff_pin -----

  /** buff_pin as it is written.  Line 177 answers a table hit with the free frame; line 187
      copies the second free frame over the first and leaves the list head where it was. */
  function PinAsWritten(s: Pool, index: int, io: nat): (r: PinOutcome)
    requires Pointers(s)
    ensures r.Finished? ==> Pointers(r.result.pool)
  {
    if index == METADATA then Finished(PinResult(s, MetaPage, None))
    else if s.freelist == None then Finished(PinResult(s, NoFreeFrames, None))
    else
      var f := s.freelist.value;
      if index in s.table then Finished(PinResult(s, Ok, Some(f)))
      else
        var entered := s.(table := s.table[index := f]);
        var got := Get(s.file, s.buffer[f], index, io);
        if got.status != Ok then Finished(PinResult(entered, got.status, None))
        else if s.metaframes[f].next == None then NullDereference
        else
          var copied := s.metaframes[s.metaframes[f].next.value];
          Finished(PinResult(
            entered.(buffer := s.buffer[f := got.page],
                     metaframes := s.metaframes[f := copied.(state := Pinned, index := index)]),
            Ok, Some(f)))
  }

  /** buff_pin as its comments at lines 134-136, 175 and 186 say: a hit gives the page's own
      frame, the list moves on to the next free frame, and a failed read leaves no entry.  It
      keeps the order of the code, so without a free frame a hit is refused too. */
  function Pin(s: Pool, index: int, io: nat): (r: PinResult)
    requires Pointers(s)
    ensures Pointers(r.pool)
  {
    if index == METADATA then PinResult(s, MetaPage, None)
    else if s.freelist == None then PinResult(s, NoFreeFrames, None)
    else if index in s.table then PinResult(s, Ok, Some(s.table[index]))
    else
      var f := s.freelist.value;
      var got := Get(s.file, s.buffer[f], index, io);
      if got.status != Ok then PinResult(s, got.status, None)
      else
        PinResult(s.(buffer := s.buffer[f := got.page],
                     metaframes := s.metaframes[f := s.metaframes[f].(state := Pinned, index := index)],
                     freelist := s.metaframes[f].next,
                     table := s.table[index := f]),
                  Ok, Some(f))
  }

  // ----- buff_unpin, buff_mark_page -----

  function Unpin(s: Pool, f: nat): PoolResult
    requires f < |s.metaframes|
  {
    var meta := s.metaframes[f];
    match meta.state
    case PinnedDirty =>
      PoolResult(s.(metaframes := s.metaframes[f := meta.(state := UnpinnedDirty, next := s.writeback)],
                    writeback := Some(f),
                    table := s.table - {meta.index}), Ok)
    case Pinned =>
      PoolResult(s.(metaframes := s.metaframes[f := meta.(state := Unpinned, next := s.freelist)],
                    freelist := Some(f),
                    table := s.table - {meta.index}), Ok)
    case _ => PoolResult(s, Err)
  }

  function Mark(s: Pool, f: nat): PoolResult
    requires f < |s.metaframes|
  {
    var meta := s.metaframes[f];
    match meta.state
    case Pinned => PoolResult(s.(metaframes := s.metaframes[f := meta.(state := PinnedDirty)]), Ok)
    case PinnedDirty => PoolResult(s, Ok)
    case _ => PoolResult(s, MarkErr)
  }

  /** What a client that holds the frame may do to it. */
  function WriteFrame(s: Pool, f: nat, d: Page): Pool
    requires f < |s.buffer|
  {
    s.(buffer := s.buffer[f := d])
  }

  // ----- buff_alloc_frame, buff_free_frame -----

  /** page is ERR_SET and frame None unless the status is Ok. */
  function AllocFrame(s: Pool, io: nat, pinIo: nat): PairResult
    requires Pointers(s)
  {
    var a := Alloc(s.file, None, io);
    var t := s.(file := a.file);
    if a.status != Ok then PairResult(t, a.status, ERR_SET, None)
    else
      var r := Pin(t, a.index, pinIo);
      if r.status != Ok then PairResult(r.pool, r.status, ERR_SET, None)
      else PairResult(r.pool, Ok, a.index, r.frame)
  }

  function FreeFrame(s: Pool, f: nat, io: nat): PoolResult
    requires f < |s.metaframes|
  {
    var page := s.metaframes[f].index;
    var faked := s.(metaframes := s.metaframes[f := s.metaframes[f].(state := Pinned)]);
    var u := Unpin(faked, f).pool;
    var r := Free(u.file, page, io);
    PoolResult(u.(file := r.file), r.status)
  }

  // ----- buff_flush_all, and the same loop in buff_destroy -----

  function Io(up: bool): nat {
    if up then 1 else 0
  }

  /** One turn of the loop. */
  function FlushOne(s: Pool, f: nat, up: bool): Pool
    requires |s.buffer| == |s.metaframes| && f < |s.buffer|
  {
    var r := Put(s.file, s.buffer[f], s.metaframes[f].index, Io(up));
    var t := s.(file := r.file);
    if r.status == Ok then t.(metaframes := s.metaframes[f := s.metaframes[f].(state := Unpinned)]) else t
  }

  /** list names frames. */
  predicate Frames(s: Pool, list: seq<nat>) {
    |s.buffer| == |s.metaframes| && forall i | 0 <= i < |list| :: list[i] < |s.buffer|
  }

  /** Whether the write at place i goes through; past the end of ups they all do. */
  predicate Up(ups: seq<bool>, i: nat) {
    i < |ups| ==> ups[i]
  }

  /** The loop over the frames of list, first to last; ups says which writes go through. */
  function FlushList(s: Pool, list: seq<nat>, ups: seq<bool>): (r: Pool)
    requires Frames(s, list)
    ensures r.buffer == s.buffer && |r.metaframes| == |s.metaframes|
    ensures r.freelist == s.freelist && r.writeback == s.writeback && r.table == s.table
    ensures forall f | 0 <= f < |s.metaframes| ::
      r.metaframes[f].next == s.metaframes[f].next && r.metaframes[f].index == s.metaframes[f].index
  {
    if list == [] then s
    else FlushOne(FlushList(s, list[..|list| - 1], ups), list[|list| - 1], Up(ups, |list| - 1))
  }

  // ----- the step that the TODO at line 355 asks for -----

  /** Frames that a flush has cleaned go to the free list, the others stay to be written. */
  function ReclaimOne(s: Pool, f: nat): Pool
    requires f < |s.metaframes|
  {
    var meta := s.metaframes[f];
    if meta.state == Unpinned then
      s.(metaframes := s.metaframes[f := meta.(next := s.freelist)], freelist := Some(f))
    else
      s.(metaframes := s.metaframes[f := meta.(next := s.writeback)], writeback := Some(f))
  }

  function ReclaimList(s: Pool, list: seq<nat>): (r: Pool)
    requires Frames(s, list)
    ensures r.buffer == s.buffer && r.table == s.table && r.file == s.file && |r.metaframes| == |s.metaframes|
    ensures forall f | 0 <= f < |s.metaframes| ::
      r.metaframes[f].state == s.metaframes[f].state && r.metaframes[f].index == s.metaframes[f].index
  {
    if list == [] then s.(writeback := None)
    else ReclaimOne(ReclaimList(s, list[..|list| - 1]), list[|list| - 1])
  }

  /** buff_flush_all with its TODO done; list is the writeback list. */
  function Flush(s: Pool, list: seq<nat>, ups: seq<bool>): Pool
    requires Frames(s, list)
  {
    ReclaimList(FlushList(s, list, ups), list)
  }
}
