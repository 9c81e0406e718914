/** The code of src/lib/buffer_manager.c over its own arrays, pointers and table. */
module BufferManager {
  import opened Wrappers
  import opened Sequences
  import opened Words
  import opened Store
  import opened Pool
  import opened PoolInvariant

  class Manager {
    const store: Backing
    const frames: nat
    const buffer: array<Page>
    const metaframes: array<MetaFrame>
    var freelist: Option<nat>
    var writeback: Option<nat>
    var lookupTable: map<int, nat>

    ghost predicate Valid()
      reads this
    {
      buffer.Length == metaframes.Length == frames
    }

    /** The manager and its store as one value. */
    ghost function View(): (s: Pool)
      reads this, store, buffer, metaframes
    {
      Pool(buffer[..], metaframes[..], freelist, writeback, lookupTable, store.file)
    }

    constructor Create(store: Backing, frames: nat)
      ensures Valid() && this.store == store && fresh(buffer) && fresh(metaframes)
      ensures View() == Created(frames, store.file)
    {
      this.store := store;
      this.frames := frames;
      buffer := new Page[frames](_ => BLANK);
      metaframes := new MetaFrame[frames](_ => MetaFrame(Pinned, 0, None));
      freelist := Some(0);
      writeback := None;
      lookupTable := map[];
      new;
      for i := 0 to frames
        invariant metaframes[..i] == InitialFrames(frames)[..i]
        invariant forall f | 0 <= f < frames :: buffer[f] == BLANK
        invariant freelist == Some(0) && writeback == None && lookupTable == map[]
      {
        if i < frames - 1 {
          metaframes[i] := MetaFrame(Unpinned, 0, Some(i + 1));
        } else {
          metaframes[i] := MetaFrame(Unpinned, 0, None);
        }
      }
      assert metaframes[..] == metaframes[..frames] == InitialFrames(frames);
      assert buffer[..] == BlankFrames(frames);
    }

    /** buff_pin as it is written.  nullRead says that it got to line 187 without a second free
        frame, where it reads through NULL; the other results then have no meaning. */
    method BuffPinAsWritten(index: int, io: nat) returns (nullRead: bool, status: Status, frame: Option<nat>)
      requires Valid() && Pointers(View())
      modifies this, buffer, metaframes
      ensures nullRead <==> PinAsWritten(old(View()), index, io).NullDereference?
      ensures !nullRead ==> Finished(PinResult(View(), status, frame)) == PinAsWritten(old(View()), index, io)
    {
      hide Get;
      if index == METADATA {
        return false, MetaPage, None;
      }
      if freelist == None {
        return false, NoFreeFrames, None;
      }
      var frameidx := freelist.value;
      if index !in lookupTable {
        lookupTable := lookupTable[index := frameidx];
      } else {
        return false, Ok, Some(frameidx);
      }
      var pinStatus, page := Backing.GetPage(buffer[frameidx], store, index, io);
      if pinStatus != Ok {
        return false, pinStatus, None;
      }
      buffer[frameidx] := page;
      if metaframes[frameidx].next == None {
        return true, Err, None;
      }
      metaframes[frameidx] := metaframes[metaframes[frameidx].next.value];
      metaframes[frameidx] := metaframes[frameidx].(state := Pinned);
      metaframes[frameidx] := metaframes[frameidx].(index := index);
      return false, Ok, Some(frameidx);
    }

    /** buff_pin with its three repairs. */
    method BuffPin(index: int, io: nat) returns (status: Status, frame: Option<nat>)
      requires Valid() && Pointers(View())
      modifies this, buffer, metaframes
      ensures PinResult(View(), status, frame) == Pin(old(View()), index, io)
    {
      if index == METADATA {
        return MetaPage, None;
      }
      if freelist == None {
        return NoFreeFrames, None;
      }
      var frameidx := freelist.value;
      if index in lookupTable {
        return Ok, Some(lookupTable[index]);
      }
      var pinStatus, page := Backing.GetPage(buffer[frameidx], store, index, io);
      if pinStatus != Ok {
        return pinStatus, None;
      }
      lookupTable := lookupTable[index := frameidx];
      buffer[frameidx] := page;
      freelist := metaframes[frameidx].next;
      metaframes[frameidx] := metaframes[frameidx].(state := Pinned);
      metaframes[frameidx] := metaframes[frameidx].(index := index);
      return Ok, Some(frameidx);
    }

    method BuffUnpin(frame: nat) returns (status: Status)
      requires Valid() && frame < frames
      modifies this, metaframes
      ensures PoolResult(View(), status) == Unpin(old(View()), frame)
    {
      if metaframes[frame].state == PinnedDirty {
        metaframes[frame] := metaframes[frame].(state := UnpinnedDirty);
        lookupTable := lookupTable - {metaframes[frame].index};
        if writeback != None {
          var oldhead := writeback;
          writeback := Some(frame);
          metaframes[frame] := metaframes[frame].(next := oldhead);
        } else {
          writeback := Some(frame);
          metaframes[frame] := metaframes[frame].(next := None);
        }
      } else if metaframes[frame].state == Pinned {
        metaframes[frame] := metaframes[frame].(state := Unpinned);
        lookupTable := lookupTable - {metaframes[frame].index};
        if freelist != None {
          var oldhead := freelist;
          freelist := Some(frame);
          metaframes[frame] := metaframes[frame].(next := oldhead);
        } else {
          freelist := Some(frame);
          metaframes[frame] := metaframes[frame].(next := None);
        }
      } else {
        return Err;
      }
      return Ok;
    }

    method BuffMarkPage(frame: nat) returns (status: Status)
      requires Valid() && frame < frames
      modifies metaframes
      ensures PoolResult(View(), status) == Mark(old(View()), frame)
    {
      if metaframes[frame].state == Pinned {
        metaframes[frame] := metaframes[frame].(state := PinnedDirty);
      } else if metaframes[frame].state == PinnedDirty {
      } else {
        return MarkErr;
      }
      return Ok;
    }

    method BuffAllocFrame(io: nat, pinIo: nat) returns (status: Status, page: int, frame: Option<nat>)
      requires Valid() && Pointers(View())
      modifies this, store, buffer, metaframes
      ensures PairResult(View(), status, page, frame) == AllocFrame(old(View()), io, pinIo)
    {
      var pagealloc, newPage := Backing.AllocPage(None, store, io);
      if pagealloc != Ok {
        return pagealloc, ERR_SET, None;
      }
      var framepin, pinned := BuffPin(newPage, pinIo);
      if framepin != Ok {
        return framepin, ERR_SET, None;
      }
      return Ok, newPage, pinned;
    }

    method BuffFreeFrame(frame: Option<nat>, io: nat) returns (status: Status)
      requires Valid() && (frame.Some? ==> frame.value < frames)
      modifies this, store, metaframes
      ensures frame == None ==> status == Err && View() == old(View())
      ensures frame.Some? ==> PoolResult(View(), status) == FreeFrame(old(View()), frame.value, io)
    {
      if frame == None {
        return Err;
      }
      var frameidx := frame.value;
      var page := metaframes[frameidx].index;
      ghost var s := View();
      metaframes[frameidx] := metaframes[frameidx].(state := Pinned);
      assert View() == s.(metaframes := s.metaframes[frameidx := s.metaframes[frameidx].(state := Pinned)]);
      var frameUnpin := BuffUnpin(frameidx);
      if frameUnpin != Ok {
        return frameUnpin;
      }
      status := Backing.FreePage(store, page, io);
    }

    /** One turn of the loops of buff_flush_all and buff_destroy. */
    method WriteBack(frame: nat, up: bool)
      requires Valid() && frame < frames
      modifies store, metaframes
      ensures View() == FlushOne(old(View()), frame, up)
    {
      var put := Backing.PutPage(buffer[frame], store, metaframes[frame].index, Io(up));
      if put == Ok {
        metaframes[frame] := metaframes[frame].(state := Unpinned);
      }
    }

    /** buff_flush_all as it is written; list is what the loop passes through. */
    method BuffFlushAll(ghost list: seq<nat>, ups: seq<bool>) returns (status: Status)
      requires Valid() && Linked(metaframes[..], writeback, list)
      modifies store, metaframes
      ensures Frames(old(View()), list)
      ensures status == Ok && View() == FlushList(old(View()), list, ups)
    {
      hide FlushList, FlushOne;
      var meta := writeback;
      var i := 0;
      ghost var s := View();
      assert FlushList(s, list[..0], ups) == s by { FlushPrefix(s, list, 0, ups); }
      while meta != None
        invariant 0 <= i <= |list| && meta == (if i < |list| then Some(list[i]) else None)
        invariant View() == FlushList(s, list[..i], ups)
        decreases |list| - i
      {
        var f := meta.value;
        FlushPrefix(s, list, i, ups);
        WriteBack(f, Up(ups, i));
        meta := metaframes[f].next;
        i := i + 1;
      }
      assert list[..i] == list;
      return Ok;
    }

    /** The relinking that the TODO at line 355 asks for. */
    method ReclaimFlushed(ghost list: seq<nat>)
      requires Valid() && Linked(metaframes[..], writeback, list) && NoDup(list)
      modifies this, metaframes
      ensures Frames(old(View()), list)
      ensures View() == ReclaimList(old(View()), list)
    {
      var meta := writeback;
      ghost var s := View();
      ghost var i := 0;
      writeback := None;
      while meta != None
        invariant 0 <= i <= |list| && meta == (if i < |list| then Some(list[i]) else None)
        invariant View() == ReclaimList(s, list[..i])
        decreases |list| - i
      {
        var f := meta.value;
        assert list[..i + 1][..i] == list[..i];
        ReclaimElsewhere(s, list[..i], f);
        meta := metaframes[f].next;
        if metaframes[f].state == Unpinned {
          metaframes[f] := metaframes[f].(next := freelist);
          freelist := Some(f);
        } else {
          metaframes[f] := metaframes[f].(next := writeback);
          writeback := Some(f);
        }
        i := i + 1;
      }
      assert list[..i] == list;
    }

    /** buff_flush_all with its TODO done. */
    method BuffFlushAllRepaired(ghost list: seq<nat>, ups: seq<bool>) returns (status: Status)
      requires Valid() && Linked(metaframes[..], writeback, list) && NoDup(list)
      modifies this, store, metaframes
      ensures Frames(old(View()), list)
      ensures status == Ok && View() == Flush(old(View()), list, ups)
    {
      status := BuffFlushAll(list, ups);
      assert Linked(View().metaframes, writeback, list);
      ReclaimFlushed(list);
    }

    /** The write-back loop of buff_destroy; what follows it gives the memory back. */
    method BuffDestroy(ghost list: seq<nat>, ups: seq<bool>) returns (status: Status)
      requires Valid() && Linked(metaframes[..], writeback, list)
      modifies store, metaframes
      ensures Frames(old(View()), list)
      ensures status == Ok && store.file == FlushList(old(View()), list, ups).file
    {
      hide FlushList, FlushOne;
      var meta := writeback;
      var i := 0;
      ghost var s := View();
      assert FlushList(s, list[..0], ups) == s by { FlushPrefix(s, list, 0, ups); }
      while meta != None
        invariant 0 <= i <= |list| && meta == (if i < |list| then Some(list[i]) else None)
        invariant View() == FlushList(s, list[..i], ups)
        decreases |list| - i
      {
        var f := meta.value;
        FlushPrefix(s, list, i, ups);
        WriteBack(f, Up(ups, i));
        meta := metaframes[f].next;
        i := i + 1;
      }
      assert list[..i] == list;
      return Ok;
    }
  }

  lemma FlushPrefix(s: Pool, list: seq<nat>, i: nat, ups: seq<bool>)
    requires Frames(s, list) && i <= |list|
    ensures FlushList(s, list[..0], ups) == s
    ensures i < |list| ==>
      FlushList(s, list[..i + 1], ups) == FlushOne(FlushList(s, list[..i], ups), list[i], Up(ups, i))
  {
    if i < |list| {
      assert list[..i + 1][..i] == list[..i];
    }
  }

  /** The relinking leaves alone the frames it has not come to. */
  lemma {:induction false} ReclaimElsewhere(s: Pool, list: seq<nat>, f: nat)
    requires Frames(s, list) && f < |s.metaframes| && f !in list
    ensures ReclaimList(s, list).metaframes[f] == s.metaframes[f]
  {
    if list != [] {
      ReclaimElsewhere(s, list[..|list| - 1], f);
    }
  }
}
