/** What the calls of buffer_manager.c answer, on any pool, and what buff_pin as it is written
    puts into a frame. */
module PoolAnswers {
  import opened Wrappers
  import opened Files
  import opened Store
  import opened StoreInvariant
  import opened StoreBytes
  import opened Pool
  import opened PoolInvariant

  /** buff_create: zeroed frames, each free one pointing at the next. */
  lemma CreatedFrames(frames: nat, file: File)
    ensures var s := Created(frames, file);
      && |s.buffer| == |s.metaframes| == frames
      && (forall f | 0 <= f < frames ::
            && (forall i | 0 <= i < 4096 :: s.buffer[f][i] == 0)
            && s.metaframes[f] == MetaFrame(Unpinned, 0, if f + 1 < frames then Some(f + 1) else None))
      && s.freelist == Some(0) && s.writeback == None && s.table == map[] && s.file == file
  {
  }

  /** The answer of buff_pin to any page number. */
  function PinStatus(s: Pool, index: int, io: nat): Status {
    if index == 0 then MetaPage
    else if s.freelist == None then NoFreeFrames
    else if index in s.table then Ok
    else if SeekFails(index * 4096) then BadSeek
    else if io < 1 || |s.file| < (index + 1) * 4096 then BadRead
    else Ok
  }

  /** buff_pin, repaired or as it is written, answers so; unless it succeeds it gives no frame,
      and the repaired one has then changed nothing.  The repaired one reads a page that is not in
      the table from the disk into the first free frame, and changes no other frame. */
  lemma PinAnswers(s: Pool, index: int, io: nat)
    requires Pointers(s)
    ensures var r := Pin(s, index, io);
      && r.status == PinStatus(s, index, io) && (r.status != Ok ==> r.pool == s && r.frame == None)
      && (r.status == Ok && index in s.table ==> r.pool == s && r.frame == Some(s.table[index]))
      && (r.status == Ok && index !in s.table ==>
            var f := s.freelist.value;
            && r.frame == Some(f) && 0 < index && (index + 1) * 4096 <= |s.file|
            && r.pool == s.(
                 buffer := s.buffer[f := s.file[index * 4096..(index + 1) * 4096]],
                 metaframes := s.metaframes[f := MetaFrame(Pinned, index, s.metaframes[f].next)],
                 freelist := s.metaframes[f].next,
                 table := s.table[index := f]))
    ensures var w := PinAsWritten(s, index, io);
      w.Finished? ==> w.result.status == PinStatus(s, index, io) && (w.result.status != Ok ==> w.result.frame == None)
  {
    hide Get;
    if s.freelist.Some? {
      GetExact(s.file, s.buffer[s.freelist.value], index, io);
    }
  }

  /** A miss of buff_pin as it is written, for a live page and with a second free frame: the page
      is read into the first free frame, whose place in the list is then a copy of the second's;
      a read that fails leaves the table entry and nothing else. */
  lemma PinAsWrittenLoads(s: Pool, m: Model, index: int, io: nat)
    requires Pointers(s) && Means(s.file, m) && index in m.live && index !in s.table
    requires s.freelist.Some? && s.metaframes[s.freelist.value].next.Some?
    ensures var w := PinAsWritten(s, index, io); var f := s.freelist.value;
      && w.Finished?
      && w.result.status == (if 1 <= io then Ok else BadRead)
      && w.result.frame == (if 1 <= io then s.freelist else None)
      && w.result.pool == s.(
           buffer := if 1 <= io then s.buffer[f := m.live[index]] else s.buffer,
           metaframes :=
             if 1 <= io then
               s.metaframes[f := MetaFrame(Pinned, index, s.metaframes[s.metaframes[f].next.value].next)]
             else s.metaframes,
           table := s.table[index := f])
  {
    hide Get;
    GetMeans(s.file, m, s.buffer[s.freelist.value], index, io);
    LiveIsNotMeta(s.file, m, index);
  }

  lemma LiveIsNotMeta(f: File, m: Model, index: int)
    requires Means(f, m) && index in m.live
    ensures index != 0
  {
  }

  /** buff_unpin answers STATUS_OK exactly for a pinned frame, which goes to the head of the list
      for its state and out of the table with all its bytes; it refuses any other frame with
      STATUS_ERR and leaves it alone. */
  lemma UnpinAnswers(s: Pool, f: nat)
    requires f < |s.metaframes|
    ensures Unpin(s, f).status == Ok <==> IsPinned(s.metaframes[f])
    ensures !IsPinned(s.metaframes[f]) ==> Unpin(s, f) == PoolResult(s, Err)
    ensures var p := s.metaframes[f].index; var t := s.(table := s.table - {p});
      && (s.metaframes[f].state == Pinned ==>
            Unpin(s, f).pool ==
            t.(metaframes := s.metaframes[f := MetaFrame(Unpinned, p, s.freelist)], freelist := Some(f)))
      && (s.metaframes[f].state == PinnedDirty ==>
            Unpin(s, f).pool ==
            t.(metaframes := s.metaframes[f := MetaFrame(UnpinnedDirty, p, s.writeback)], writeback := Some(f)))
  {
  }

  /** buff_mark_page likewise, with STATUS_MARK_ERR. */
  lemma MarkAnswers(s: Pool, f: nat)
    requires f < |s.metaframes|
    ensures Mark(s, f).status == Ok <==> IsPinned(s.metaframes[f])
    ensures !IsPinned(s.metaframes[f]) ==> Mark(s, f) == PoolResult(s, MarkErr)
  {
  }

  /** buff_alloc_frame passes on whatever alloc_page answers, and then whatever buff_pin does. */
  lemma AllocFrameAnswers(s: Pool, io: nat, pinIo: nat)
    requires Pointers(s)
    ensures var a := Alloc(s.file, None, io); var r := AllocFrame(s, io, pinIo);
      && r.status == (if a.status != Ok then a.status else PinStatus(s.(file := a.file), a.index, pinIo))
      && r.pool.file == a.file
      && r.page == (if r.status == Ok then a.index else -1)
      && (r.status != Ok ==> r.frame == None)
  {
    hide Alloc, Pin, PinStatus;
    var a := Alloc(s.file, None, io);
    PinAnswers(s.(file := a.file), a.index, pinIo);
    KeepsFile(s.(file := a.file), a.index, pinIo);
  }

  lemma KeepsFile(s: Pool, index: int, io: nat)
    requires Pointers(s)
    ensures Pin(s, index, io).pool.file == s.file
  {
    hide Get;
  }

  /** buff_free_frame, whatever the state of the frame, does to the store what free_page of the
      frame's page does, answers what that answers, and leaves the frame unpinned and first on
      the free list. */
  lemma FreeFrameAnswers(s: Pool, f: nat, io: nat)
    requires f < |s.metaframes|
    ensures var p := s.metaframes[f].index; var r := FreeFrame(s, f, io);
      && r.status == Free(s.file, p, io).status && r.pool.file == Free(s.file, p, io).file
      && r.pool.metaframes == s.metaframes[f := MetaFrame(Unpinned, p, s.freelist)]
      && r.pool.freelist == Some(f) && r.pool.writeback == s.writeback
      && r.pool.table == s.table - {p} && r.pool.buffer == s.buffer
  {
    hide Free;
  }
}
