/** The page store (src/lib/fileio.c).

    Each call takes io, the number of its reads and writes that the operating system lets
    succeed; a call gives up at the first that fails, so io covers every way it can fail.
    The functions say what a call leaves in the file, and the methods are proved to leave
    exactly that. */
module Store {
  import opened Wrappers
  import opened Words
  import opened Files

  datatype Status =
    | Ok
    | Err
    | NoFile
    | BadRead
    | BadWrite
    | BadSeek
    | MetaPage
    | NoFreeFrames
    | MarkErr

  const ERR_SET: int := -1
  const EMPTY_LIST: int := -1
  const STATUS_ERR: int := 1

  function IndexToOffset(index: int): int {
    index * PAGESIZE
  }

  /** C's division rounds towards zero. */
  function OffsetToIndex(offset: int): int {
    if offset < 0 then -(-offset / PAGESIZE) else offset / PAGESIZE
  }

  datatype AllocResult = AllocResult(file: File, status: Status, index: int)
  datatype FileResult = FileResult(file: File, status: Status)
  datatype ReadResult = ReadResult(status: Status, page: Page)

  // ----- create_new_backing -----

  function FreshMeta(): Page {
    SetField(SetField(SetField(BLANK, 0, 1), 1, EMPTY_LIST), 2, EMPTY_LIST)
  }

  function Create(io: nat): FileResult {
    if io == 0 then FileResult([], BadWrite) else FileResult(WriteAt([], 0, FreshMeta()), Ok)
  }

  // ----- alloc_page -----

  function Alloc(f: File, src: Option<Page>, io: nat): AllocResult {
    if io < 1 || !Readable(f, 0, PAGESIZE) then AllocResult(f, BadRead, ERR_SET)
    else if Head(f[..PAGESIZE]) != EMPTY_LIST then AllocReuse(f, f[..PAGESIZE], src, io)
    else AllocGrow(f, f[..PAGESIZE], src, io)
  }

  /** The metadata once the head has been taken off the free list. */
  function PopMeta(meta: Page, next: int): Page {
    var popped := SetField(meta, 1, next);
    if Head(meta) == Tail(meta) then SetField(popped, 2, next) else popped
  }

  /** Where the reused page's first contents are written.  With no source page, the byte
      offset of the page is taken for a page index, and multiplied again. */
  function ReuseTarget(head: int, src: Option<Page>): int {
    if src.Some? then head else IndexToOffset(head)
  }

  function AllocReuse(f: File, meta: Page, src: Option<Page>, io: nat): AllocResult {
    var head := Head(meta);
    var target := ReuseTarget(head, src);
    if io < 2 || !Readable(f, head, WORDSIZE) then AllocResult(f, BadRead, ERR_SET)
    else if io < 3 || !Writable(target) then AllocResult(f, BadWrite, ERR_SET)
    else
      var g := WriteAt(f, target, src.GetOr(BLANK));
      if io < 4 then AllocResult(g, BadWrite, ERR_SET)
      else
        var next := DecodeWord(f[head..head + WORDSIZE]);
        AllocResult(WriteAt(g, 0, PopMeta(meta, next)), Ok, OffsetToIndex(head))
  }

  function AllocGrow(f: File, meta: Page, src: Option<Page>, io: nat): AllocResult {
    var page := Size(meta);
    var off := IndexToOffset(page);
    if io < 2 || !Writable(off) then AllocResult(f, BadWrite, ERR_SET)
    else
      var blanked := WriteAt(f, off, BLANK);
      if src.Some? && io < 3 then AllocResult(blanked, BadWrite, STATUS_ERR)
      else
        var filled := if src.Some? then WriteAt(blanked, off, src.value) else blanked;
        if io < (if src.Some? then 4 else 3) then AllocResult(filled, BadWrite, ERR_SET)
        else AllocResult(WriteAt(filled, 0, SetField(meta, 0, page + 1)), Ok, page)
  }

  // ----- free_page -----

  function Free(f: File, index: int, io: nat): FileResult {
    if IndexToOffset(index) == 0 then FileResult(f, MetaPage)
    else if io < 1 || !Readable(f, 0, PAGESIZE) then FileResult(f, BadRead)
    else
      var meta := f[..PAGESIZE];
      if Tail(meta) == EMPTY_LIST && Head(meta) == EMPTY_LIST
      then FreeFirst(f, meta, IndexToOffset(index), io)
      else FreeAppend(f, meta, IndexToOffset(index), io)
  }

  function FreeFirst(f: File, meta: Page, pageloc: int, io: nat): FileResult {
    if io < 2 || !Writable(pageloc) then FileResult(f, BadWrite)
    else
      var g := WriteAt(f, pageloc, FreeImage(EMPTY_LIST));
      if io < 3 then FileResult(g, BadWrite)
      else FileResult(WriteAt(g, 0, SetField(SetField(meta, 1, pageloc), 2, pageloc)), Ok)
  }

  function FreeAppend(f: File, meta: Page, pageloc: int, io: nat): FileResult {
    if io < 2 || !Writable(Tail(meta)) then FileResult(f, BadWrite)
    else
      var linked := WriteAt(f, Tail(meta), FreeImage(pageloc));
      if io < 3 || !Writable(pageloc) then FileResult(linked, BadWrite)
      else
        var ended := WriteAt(linked, pageloc, FreeImage(EMPTY_LIST));
        if io < 4 then FileResult(ended, BadWrite)
        else FileResult(WriteAt(ended, 0, SetField(meta, 2, pageloc)), Ok)
  }

  // ----- get_page, put_page -----

  /** lseek refuses only offsets that are no off_t at or after the start of the file. */
  predicate Seekable(off: int) {
    0 <= off <= MAX_FILE
  }

  /** dest is what the caller's buffer held before; a failed read leaves it. */
  function Get(f: File, dest: Page, index: int, io: nat): ReadResult {
    var off := IndexToOffset(index);
    if off == 0 then ReadResult(MetaPage, dest)
    else if !Seekable(off) then ReadResult(BadSeek, dest)
    else if io < 1 || !Readable(f, off, PAGESIZE) then ReadResult(BadRead, dest)
    else ReadResult(Ok, f[off..off + PAGESIZE])
  }

  function Put(f: File, src: Page, index: int, io: nat): FileResult {
    var off := IndexToOffset(index);
    if off == 0 then FileResult(f, MetaPage)
    else if !Seekable(off) then FileResult(f, BadSeek)
    else if io < 1 || !Writable(off) then FileResult(f, BadWrite)
    else FileResult(WriteAt(f, off, src), Ok)
  }

  // ----- the code -----

  class Backing {
    var file: File

    /** open with O_TRUNC: whatever was there before is gone. */
    constructor ()
      ensures file == []
    {
      file := [];
    }

    static method CreateNewBacking(io: nat) returns (store: Backing, status: Status)
      ensures fresh(store)
      ensures FileResult(store.file, status) == Create(io)
    {
      store := new Backing();
      var metadata: Page := BLANK;
      metadata := SetField(metadata, 0, 1);
      metadata := SetField(metadata, 1, EMPTY_LIST);
      metadata := SetField(metadata, 2, EMPTY_LIST);
      var written := store.PWrite(metadata, IndexToOffset(0), 0 < io);
      status := if written then Ok else BadWrite;
    }

    method PRead(off: int, n: nat, up: bool) returns (ok: bool, data: seq<byte>)
      ensures ok == (up && Readable(file, off, n))
      ensures ok ==> data == file[off..off + n]
    {
      ok := up && Readable(file, off, n);
      data := if ok then file[off..off + n] else [];
    }

    method PWrite(data: Page, off: int, up: bool) returns (ok: bool)
      modifies this
      ensures ok == (up && Writable(off))
      ensures file == if ok then WriteAt(old(file), off, data) else old(file)
    {
      ok := up && Writable(off);
      if ok {
        file := WriteAt(file, off, data);
      }
    }

    static method AllocPage(src: Option<Page>, file: Backing?, io: nat)
      returns (status: Status, index: int)
      modifies file
      ensures file == null ==> status == NoFile && index == ERR_SET
      ensures file != null ==> AllocResult(file.file, status, index) == Alloc(old(file.file), src, io)
    {
      if file == null {
        return NoFile, ERR_SET;
      }
      var read, metadata := file.PRead(IndexToOffset(0), PAGESIZE, 0 < io);
      if !read {
        return BadRead, ERR_SET;
      }
      if Head(metadata) != EMPTY_LIST {
        status, index := file.ReusePage(metadata, src, io);
      } else {
        status, index := file.AppendPage(metadata, src, io);
      }
    }

    /** alloc_page from line 201 on: the first page of the free list. */
    method ReusePage(meta: Page, src: Option<Page>, io: nat) returns (status: Status, index: int)
      modifies this
      ensures AllocResult(file, status, index) == AllocReuse(old(file), meta, src, io)
    {
      hide WriteAt, Field, SetField, DecodeWord;
      var metadata := meta;
      var offset := Head(metadata);
      var read, nextpage := PRead(offset, WORDSIZE, 1 < io);
      if !read {
        return BadRead, ERR_SET;
      }
      if Head(metadata) == Tail(metadata) {
        metadata := SetField(metadata, 1, DecodeWord(nextpage));
        metadata := SetField(metadata, 2, DecodeWord(nextpage));
      } else {
        metadata := SetField(metadata, 1, DecodeWord(nextpage));
      }
      if src.Some? {
        var write := PWrite(src.value, offset, 2 < io);
        if !write {
          return BadWrite, ERR_SET;
        }
      } else {
        var blankWrite := PWrite(BLANK, IndexToOffset(offset), 2 < io);
        if !blankWrite {
          return BadWrite, ERR_SET;
        }
      }
      var metaWrite := PWrite(metadata, IndexToOffset(0), 3 < io);
      if !metaWrite {
        return BadWrite, ERR_SET;
      }
      return Ok, OffsetToIndex(offset);
    }

    /** alloc_page from line 252 on: a new page at the end of the store. */
    method AppendPage(meta: Page, src: Option<Page>, io: nat) returns (status: Status, index: int)
      modifies this
      ensures AllocResult(file, status, index) == AllocGrow(old(file), meta, src, io)
    {
      hide WriteAt, Field, SetField;
      var metadata := meta;
      var newpage := Size(metadata);
      var blankWrite := PWrite(BLANK, IndexToOffset(newpage), 1 < io);
      if !blankWrite {
        return BadWrite, ERR_SET;
      }
      if src.Some? {
        var dataWrite := PWrite(src.value, IndexToOffset(newpage), 2 < io);
        if !dataWrite {
          return BadWrite, STATUS_ERR;
        }
      }
      metadata := SetField(metadata, 0, newpage + 1);
      var metaWrite := PWrite(metadata, IndexToOffset(0), (if src.Some? then 3 else 2) < io);
      if !metaWrite {
        return BadWrite, ERR_SET;
      }
      return Ok, newpage;
    }

    static method FreePage(store: Backing?, index: int, io: nat) returns (status: Status)
      modifies store
      ensures store == null ==> status == if IndexToOffset(index) == 0 then MetaPage else NoFile
      ensures store != null ==> FileResult(store.file, status) == Free(old(store.file), index, io)
    {
      var pageloc := IndexToOffset(index);
      if pageloc == 0 {
        return MetaPage;
      }
      if store == null {
        return NoFile;
      }
      var read, metadata := store.PRead(IndexToOffset(0), PAGESIZE, 0 < io);
      if !read {
        return BadRead;
      }
      if Tail(metadata) == EMPTY_LIST && Head(metadata) == EMPTY_LIST {
        metadata := SetField(metadata, 1, pageloc);
        metadata := SetField(metadata, 2, pageloc);
        var freeWrite := store.PWrite(FreeImage(EMPTY_LIST), pageloc, 1 < io);
        if !freeWrite {
          return BadWrite;
        }
        var metaWrite := store.PWrite(metadata, IndexToOffset(0), 2 < io);
        if !metaWrite {
          return BadWrite;
        }
        return Ok;
      }
      var oldTail := store.PWrite(FreeImage(pageloc), Tail(metadata), 1 < io);
      if !oldTail {
        return BadWrite;
      }
      var freeWrite := store.PWrite(FreeImage(EMPTY_LIST), pageloc, 2 < io);
      if !freeWrite {
        return BadWrite;
      }
      metadata := SetField(metadata, 2, pageloc);
      var metaWrite := store.PWrite(metadata, IndexToOffset(0), 3 < io);
      if !metaWrite {
        return BadWrite;
      }
      return Ok;
    }

    static method GetPage(dest: Page, store: Backing?, index: int, io: nat)
      returns (status: Status, page: Page)
      ensures store == null ==>
        page == dest && status == if IndexToOffset(index) == 0 then MetaPage else NoFile
      ensures store != null ==> ReadResult(status, page) == Get(store.file, dest, index, io)
    {
      var pageloc := IndexToOffset(index);
      if pageloc == 0 {
        return MetaPage, dest;
      }
      if store == null {
        return NoFile, dest;
      }
      if !Seekable(pageloc) {
        return BadSeek, dest;
      }
      var pageRead, data := store.PRead(IndexToOffset(index), PAGESIZE, 0 < io);
      if !pageRead {
        return BadRead, dest;
      }
      return Ok, data;
    }

    static method PutPage(src: Page, store: Backing?, index: int, io: nat) returns (status: Status)
      modifies store
      ensures store == null ==> status == if IndexToOffset(index) == 0 then MetaPage else NoFile
      ensures store != null ==> FileResult(store.file, status) == Put(old(store.file), src, index, io)
    {
      var pageloc := IndexToOffset(index);
      if pageloc == 0 {
        return MetaPage;
      }
      if store == null {
        return NoFile;
      }
      if !Seekable(pageloc) {
        return BadSeek;
      }
      var pageWrite := store.PWrite(src, IndexToOffset(index), 0 < io);
      if !pageWrite {
        return BadWrite;
      }
      return Ok;
    }
  }
}
