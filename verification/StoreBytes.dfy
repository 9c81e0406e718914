/** The store in bytes and numbers: what fileio.c leaves on disk and what it answers, without
    the names that the other modules use for them. */
module StoreBytes {
  import opened Wrappers
  import opened Sequences
  import opened Words
  import opened Files
  import opened Store
  import opened StoreInvariant
  import opened StoreFaults

  // ----- words and writes -----

  function EightBytes(b0: int, b1: int, b2: int, b3: int, b4: int, b5: int, b6: int, b7: int): int {
    b0 + 0x100 * b1 + 0x1_0000 * b2 + 0x100_0000 * b3 + 0x1_0000_0000 * b4
    + 0x100_0000_0000 * b5 + 0x1_0000_0000_0000 * b6 + 0x100_0000_0000_0000 * b7
  }

  /** A ssize_t in eight bytes: two's complement, least significant byte first. */
  lemma WordBytes(s: seq<byte>)
    requires |s| == 8
    ensures var u := EightBytes(s[0], s[1], s[2], s[3], s[4], s[5], s[6], s[7]);
      DecodeWord(s) == if u < 0x8000_0000_0000_0000 then u else u - 0x1_0000_0000_0000_0000
  {
    assert Unsigned(s[8..]) == 0;
    assert Unsigned(s[7..]) == s[7];
    assert Unsigned(s[6..]) == s[6] + 256 * Unsigned(s[6..][1..]) && s[6..][1..] == s[7..];
    assert Unsigned(s[5..]) == s[5] + 256 * Unsigned(s[5..][1..]) && s[5..][1..] == s[6..];
    assert Unsigned(s[4..]) == s[4] + 256 * Unsigned(s[4..][1..]) && s[4..][1..] == s[5..];
    assert Unsigned(s[3..]) == s[3] + 256 * Unsigned(s[3..][1..]) && s[3..][1..] == s[4..];
    assert Unsigned(s[2..]) == s[2] + 256 * Unsigned(s[2..][1..]) && s[2..][1..] == s[3..];
    assert Unsigned(s[1..]) == s[1] + 256 * Unsigned(s[1..][1..]) && s[1..][1..] == s[2..];
    assert Unsigned(s) == s[0] + 256 * Unsigned(s[1..]);
  }

  /** A pwrite changes the bytes it names, keeps all others, and fills a gap with zeros. */
  lemma PwriteBytes(f: File, off: int, d: Page)
    requires Writable(off)
    ensures var g := WriteAt(f, off, d);
      && |g| == (if off + 4096 <= |f| then |f| else off + 4096)
      && g[off..off + 4096] == d
      && (forall i | 0 <= i < |g| && !(off <= i < off + 4096) :: g[i] == if i < |f| then f[i] else 0)
    ensures 0 <= off && off + 4096 <= 0x7fff_ffff_ffff_ffff
  {
  }

  /** The page at a free place of the list: a link, then zeros, and nothing else is one. */
  lemma FreeImageBytes(q: Page, link: int)
    requires IsWord(link)
    ensures q == FreeImage(link) <==> DecodeWord(q[..8]) == link && forall i | 8 <= i < 4096 :: q[i] == 0
  {
    var image := FreeImage(link);
    assert image[..8] == EncodeWord(link) && image[8..] == BLANK[8..];
    DecodeEncode(link);
    EncodeDecode(q[..8]);
    assert q == q[..8] + q[8..];
    hide EncodeWord, DecodeWord;
  }

  /** Page numbers and byte offsets: each page starts at its number times 4096, and an offset
      inside a page leads back to it, rounding towards page 0. */
  lemma OffsetsAndIndexes(p: int, off: int)
    ensures IndexToOffset(p) == 4096 * p && OffsetToIndex(IndexToOffset(p)) == p
    ensures var q := OffsetToIndex(off);
      if 0 <= off then q * 4096 <= off < (q + 1) * 4096 else (q - 1) * 4096 < off <= q * 4096
  {
  }

  // ----- the meaning of a store, in bytes -----

  /** The word at a byte offset. */
  function Word(f: File, off: nat): int
    requires off + 8 <= |f|
  {
    DecodeWord(f[off..off + 8])
  }

  /** Page 0 begins with the size, the byte offset of the first free page and that of the last
      one; a free page begins with the byte offset of the next and is zero behind it; -1 stands
      for no page. */
  ghost predicate Layout(f: File, m: Model) {
    && 1 <= m.size && m.size * 4096 <= |f| <= 0x7fff_ffff_ffff_ffff
    && Partition(m) && (forall p | p in m.loose :: p in m.queue)
    && Word(f, 0) == m.size
    && Word(f, 8) == (if m.queue == [] then -1 else m.queue[0] * 4096)
    && Word(f, 16) == (if m.queue == [] then -1 else m.queue[|m.queue| - 1] * 4096)
    && (forall i | 0 <= i < |m.queue| && m.queue[i] !in m.loose :: FreePage(f, m.queue, i))
    && (forall p | p in m.live :: (p + 1) * 4096 <= |f| && f[p * 4096..(p + 1) * 4096] == m.live[p])
  }

  ghost predicate FreePage(f: File, queue: seq<nat>, i: nat)
    requires i < |queue|
  {
    var off := queue[i] * 4096;
    && off + 4096 <= |f|
    && Word(f, off) == (if i + 1 < |queue| then queue[i + 1] * 4096 else -1)
    && forall b | off + 8 <= b < off + 4096 :: f[b] == 0
  }

  /** The invariant that all other theorems speak of is this layout, neither more nor less. */
  lemma MeansInBytes(f: File, m: Model)
    ensures Means(f, m) <==> Layout(f, m)
  {
    hide DecodeWord, FreeImage, NoDup;
    if Means(f, m) {
      MetaInBytes(f, m);
      forall i | 0 <= i < |m.queue| && m.queue[i] !in m.loose
        ensures FreePage(f, m.queue, i)
      {
        FreePageInBytes(f, m, i);
      }
    } else if Layout(f, m) {
      MetaInBytes(f, m);
      forall i | 0 <= i < |m.queue| && m.queue[i] !in m.loose
        ensures PageAt(f, m.queue[i]) == FreeImage(NextWord(m.queue, i))
      {
        FreePageInBytes(f, m, i);
      }
    }
  }

  lemma MetaInBytes(f: File, m: Model)
    requires 1 <= m.size && 4096 <= |f|
    ensures MetaIs(PageAt(f, 0), m) <==>
      && Word(f, 0) == m.size
      && Word(f, 8) == (if m.queue == [] then -1 else m.queue[0] * 4096)
      && Word(f, 16) == (if m.queue == [] then -1 else m.queue[|m.queue| - 1] * 4096)
  {
    hide DecodeWord;
    var meta := PageAt(f, 0);
    assert meta[0..8] == f[0..8] && meta[8..16] == f[8..16] && meta[16..24] == f[16..24];
  }

  lemma FreePageInBytes(f: File, m: Model, i: nat)
    requires m.size * 4096 <= |f| <= MAX_FILE && Partition(m) && i < |m.queue|
    ensures FreePage(f, m.queue, i) <==> PageAt(f, m.queue[i]) == FreeImage(NextWord(m.queue, i))
  {
    hide DecodeWord, FreeImage, NoDup;
    assert m.queue[i] in m.queue && (i + 1 < |m.queue| ==> m.queue[i + 1] in m.queue);
    var off, q := m.queue[i] * 4096, PageAt(f, m.queue[i]);
    FreeImageBytes(q, NextWord(m.queue, i));
    assert q[..8] == f[off..off + 8];
    assert forall b | 8 <= b < 4096 :: q[b] == f[off + b];
    assert forall b | off + 8 <= b < off + 4096 :: f[b] == q[b - off];
  }

  // ----- what the calls leave and answer -----

  predicate InRange(off: int) {
    0 <= off && off + 4096 <= 0x7fff_ffff_ffff_ffff
  }

  predicate SeekFails(off: int) {
    off < 0 || 0x7fff_ffff_ffff_ffff < off
  }

  /** create_new_backing writes one page: size 1, no free page, and zeros. */
  lemma CreateBytes(io: nat)
    ensures io == 0 ==> Create(io) == FileResult([], BadWrite)
    ensures 0 < io ==> var r := Create(io);
      && r.status == Ok && |r.file| == 4096
      && Word(r.file, 0) == 1 && Word(r.file, 8) == -1 && Word(r.file, 16) == -1
      && forall i | 24 <= i < 4096 :: r.file[i] == 0
  {
    hide Means, DecodeWord, FreshMeta;
    if 0 < io {
      CreateMeansFresh(io);
      MeansInBytes(Create(io).file, FRESH);
      FreshMetaZeros();
      assert WriteAt([], 0, FreshMeta()) == FreshMeta();
    }
  }

  lemma FreshMetaZeros()
    ensures forall i | 24 <= i < 4096 :: FreshMeta()[i] == 0
  {
    hide EncodeWord;
    SetFieldRest(BLANK, 0, 1);
    SetFieldRest(SetField(BLANK, 0, 1), 1, EMPTY_LIST);
    SetFieldRest(SetField(SetField(BLANK, 0, 1), 1, EMPTY_LIST), 2, EMPTY_LIST);
  }

  lemma SetFieldRest(q: Page, k: nat, v: int)
    requires k < 3
    ensures SetField(q, k, v)[24..] == q[24..]
  {
    hide EncodeWord;
  }

  /** alloc_page on any file: which status and index it answers. */
  lemma AllocAnswers(f: File, src: Option<Page>, io: nat)
    ensures io < 1 || |f| < 4096 ==> Alloc(f, src, io) == AllocResult(f, BadRead, -1)
    ensures 1 <= io && 4096 <= |f| && Word(f, 8) != -1 ==>
      var r := Alloc(f, src, io); var head := Word(f, 8);
      var off := if src.Some? then head else head * 4096;
      && (r.status == BadRead <==> io < 2 || head < 0 || |f| < head + 8)
      && (r.status == BadRead ==> r.file == f)
      && (r.status == Ok <==> r.status != BadRead && 4 <= io && InRange(off))
      && (r.status == Ok || r.status == BadRead || r.status == BadWrite)
      && r.index == if r.status == Ok then head / 4096 else -1
    ensures 1 <= io && 4096 <= |f| && Word(f, 8) == -1 ==>
      var r := Alloc(f, src, io); var size := Word(f, 0);
      && (r.status == Ok <==> InRange(size * 4096) && (if src.Some? then 4 else 3) <= io)
      && (r.status != Ok ==> r.status == BadWrite)
      && r.index == (if r.status == Ok then size
                     else if InRange(size * 4096) && src.Some? && io == 2 then 1 else -1)
  {
    hide DecodeWord, WriteAt, PopMeta, SetField;
    assert 4096 <= |f| ==> f[..4096][0..8] == f[0..8] && f[..4096][8..16] == f[8..16];
  }

  /** alloc_page with no free page, on any file: the page behind the last one is blanked first and
      then given the source page, the size goes up only when all else is written, and no other
      page changes. */
  lemma GrowPages(f: File, src: Option<Page>, io: nat)
    requires 1 <= io && 4096 <= |f| && Head(PageAt(f, 0)) == -1
    requires 1 <= Size(PageAt(f, 0)) && InRange(Size(PageAt(f, 0)) * 4096)
    ensures var r := Alloc(f, src, io); var size := Size(PageAt(f, 0));
      && (io < 2 ==> r.file == f)
      && (2 <= io ==> (size + 1) * 4096 <= |r.file|)
      && (2 <= io ==>
            PageAt(r.file, size) == if src.Some? && 3 <= io then src.value else BLANK)
      && (forall q | 0 < q != size && (q + 1) * 4096 <= |f| :: PageAt(r.file, q) == PageAt(f, q))
      && PageAt(r.file, 0) == (if r.status == Ok then SetField(PageAt(f, 0), 0, size + 1) else PageAt(f, 0))
  {
    hide WriteAt, PageAt, Field, SetField;
    var meta, size := PageAt(f, 0), Size(PageAt(f, 0));
    PageZero(f);
    if 2 <= io {
      WritePage(f, size, BLANK);
      var g := WriteAt(f, size * 4096, BLANK);
      if src.Some? {
        WritePage(g, size, src.value);
      }
      var h := if src.Some? && 3 <= io then WriteAt(g, size * 4096, src.value) else g;
      WritePage(h, 0, SetField(meta, 0, size + 1));
    }
  }

  /** alloc_page with a free page h: the source page goes to h, or a blank one, 4096 times as far
      into the file as h; then the metadata, in which the link that h holds becomes the head, and
      the tail too if h was the only free page; and no other page changes. */
  lemma ReusePages(f: File, m: Model, src: Option<Page>, io: nat)
    requires Means(f, m) && m.queue != []
    ensures var r := Alloc(f, src, io); var h := m.queue[0]; var at := if src.Some? then h else h * 4096;
      && (io < 3 || !InRange(at * 4096) ==> r.file == f)
      && (3 <= io && InRange(at * 4096) ==>
            && (at + 1) * 4096 <= |r.file| && PageAt(r.file, at) == src.GetOr(BLANK)
            && (forall q | 0 < q != at && (q + 1) * 4096 <= |f| :: PageAt(r.file, q) == PageAt(f, q))
            && (io < 4 ==> PageAt(r.file, 0) == PageAt(f, 0))
            && (4 <= io ==> PopsHead(PageAt(f, 0), PageAt(r.file, 0), Link(PageAt(f, h)))))
  {
    hide WriteAt, PageAt, Field, SetField, Partition, Chained, Contents;
    ReadMeta(f, m);
    var h := m.queue[0];
    HeadInStore(f, m);
    InStore(f, m, h);
    ReadLink(f, h);
    var at, meta, link := if src.Some? then h else h * 4096, PageAt(f, 0), Link(PageAt(f, h));
    LinkIsWord(PageAt(f, h));
    if 3 <= io && InRange(at * 4096) {
      WritePage(f, at, src.GetOr(BLANK));
      WritePage(WriteAt(f, at * 4096, src.GetOr(BLANK)), 0, PopMeta(meta, link));
      FieldOfSetField(meta, 1, link);
      FieldOfSetField(SetField(meta, 1, link), 2, link);
    }
  }

  /** What taking the first free page off the list does to the metadata. */
  ghost predicate PopsHead(meta: Page, meta': Page, link: int) {
    Size(meta') == Size(meta) && Head(meta') == link
    && Tail(meta') == if Head(meta) == Tail(meta) then link else Tail(meta)
  }

  lemma PageZero(f: File)
    requires 4096 <= |f|
    ensures f[..4096] == PageAt(f, 0)
  {
  }

  /** free_page on any file and any page number: which status it answers. */
  lemma FreeAnswers(f: File, p: int, io: nat)
    ensures p == 0 ==> Free(f, p, io) == FileResult(f, MetaPage)
    ensures p != 0 && (io < 1 || |f| < 4096) ==> Free(f, p, io) == FileResult(f, BadRead)
    ensures p != 0 && 1 <= io && 4096 <= |f| ==>
      var r := Free(f, p, io); var head, tail := Word(f, 8), Word(f, 16);
      && (r.status == Ok <==>
            (InRange(p * 4096) && if head == -1 && tail == -1 then 3 <= io else 4 <= io && InRange(tail)))
      && (r.status != Ok ==> r.status == BadWrite)
  {
    hide DecodeWord, WriteAt, SetField, FreeImage;
    assert 4096 <= |f| ==> f[..4096][8..16] == f[8..16] && f[..4096][16..24] == f[16..24];
  }

  /** free_page of a live page: on disk it holds -1 and zeros, the last free page before it holds
      its byte offset and zeros, and page 0 ends the list with it. */
  lemma FreedBytes(f: File, m: Model, p: nat)
    requires Means(f, m) && p in m.live
    ensures var g := Free(f, p, 4).file;
      && Free(f, p, 4).status == Ok && (p + 1) * 4096 <= |g|
      && Word(g, p * 4096) == -1 && (forall b | p * 4096 + 8 <= b < (p + 1) * 4096 :: g[b] == 0)
      && Word(g, 0) == m.size && Word(g, 16) == p * 4096
      && Word(g, 8) == (if m.queue == [] then p else m.queue[0]) * 4096
      && (m.queue != [] ==> var t := m.queue[|m.queue| - 1] * 4096;
            && 0 <= t && t + 4096 <= |g|
            && Word(g, t) == p * 4096 && forall b | t + 8 <= b < t + 4096 :: g[b] == 0)
  {
    hide Means, Free, DecodeWord;
    FreeMeans(f, m, p, 4);
    LooseAreFree(f, m, p);
    var g, m' := Free(f, p, 4).file, Pushed(m, p);
    MeansInBytes(g, m');
    assert m'.queue[|m.queue|] == p;
    assert FreePage(g, m'.queue, |m.queue|);
    if m.queue != [] {
      assert FreePage(g, m'.queue, |m.queue| - 1);
    }
  }

  lemma LooseAreFree(f: File, m: Model, p: nat)
    requires Means(f, m) && p in m.live
    ensures p !in m.loose
  {
  }

  /** get_page on any file and any page number. */
  lemma GetExact(f: File, dest: Page, p: int, io: nat)
    ensures var r := Get(f, dest, p, io);
      && (r.status == Ok <==> 0 < p && 1 <= io && (p + 1) * 4096 <= |f| && !SeekFails(p * 4096))
      && r.page == (if r.status == Ok then f[p * 4096..(p + 1) * 4096] else dest)
      && (r.status != Ok ==>
            r.status == if p == 0 then MetaPage else if SeekFails(p * 4096) then BadSeek else BadRead)
  {
  }

  /** put_page on any file and any page number. */
  lemma PutExact(f: File, src: Page, p: int, io: nat)
    ensures var r := Put(f, src, p, io);
      && (r.status == Ok <==> 0 < p && 1 <= io && InRange(p * 4096))
      && (r.status == Ok ==> |r.file| == if (p + 1) * 4096 <= |f| then |f| else (p + 1) * 4096)
      && (r.status == Ok ==>
            forall i | 0 <= i < |r.file| ::
                 r.file[i] == if p * 4096 <= i < (p + 1) * 4096 then src[i - p * 4096] else if i < |f| then f[i] else 0)
      && (r.status != Ok ==>
            && r.file == f
            && r.status == if p == 0 then MetaPage else if SeekFails(p * 4096) then BadSeek else BadWrite)
  {
    if Writable(p * 4096) {
      PwriteBytes(f, p * 4096, src);
      var g := WriteAt(f, p * 4096, src);
      assert forall i | p * 4096 <= i < (p + 1) * 4096 :: g[i] == g[p * 4096..p * 4096 + 4096][i - p * 4096];
    }
    hide WriteAt;
  }
}
