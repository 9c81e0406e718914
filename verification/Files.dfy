/** The store file as the operating system keeps it: a flat run of bytes.  pread and
    pwrite either move every byte asked for or move none. */
module Files {
  import opened Words

  type File = seq<byte>

  /** The largest off_t, hence the largest file. */
  const MAX_FILE: nat := TWO_TO_THE_63 - 1

  predicate Readable(f: File, off: int, n: nat) {
    0 <= off && off + n <= |f|
  }

  predicate Writable(off: int) {
    0 <= off <= MAX_FILE - PAGESIZE
  }

  /** The file after a pwrite of one page; a gap before off reads as zeros. */
  function WriteAt(f: File, off: int, d: Page): File
    requires Writable(off)
  {
    if |f| < off then
      f + Zeros(off - |f|) + d
    else if off + PAGESIZE <= |f| then
      f[..off] + d + f[off + PAGESIZE..]
    else
      f[..off] + d
  }

  /** Page p of the file; blank where the file does not reach. */
  function PageAt(f: File, p: int): Page {
    if 0 <= p && (p + 1) * PAGESIZE <= |f| then f[p * PAGESIZE..(p + 1) * PAGESIZE] else BLANK
  }

  /** Writing page p changes page p and, inside the old file, nothing else. */
  lemma WritePage(f: File, p: int, d: Page)
    requires Writable(p * PAGESIZE)
    ensures var g := WriteAt(f, p * PAGESIZE, d);
      && |g| == (if (p + 1) * PAGESIZE <= |f| then |f| else (p + 1) * PAGESIZE)
      && PageAt(g, p) == d
      && forall q | q != p && (q + 1) * PAGESIZE <= |f| :: PageAt(g, q) == PageAt(f, q)
  {
    var g := WriteAt(f, p * PAGESIZE, d);
    assert g[p * PAGESIZE..(p + 1) * PAGESIZE] == d;
    forall q | q != p && (q + 1) * PAGESIZE <= |f|
      ensures PageAt(g, q) == PageAt(f, q)
    {
      if 0 <= q {
        assert g[q * PAGESIZE..(q + 1) * PAGESIZE] == f[q * PAGESIZE..(q + 1) * PAGESIZE];
      }
    }
  }

  /** The first word of a page that lies in the file. */
  lemma ReadLink(f: File, p: nat)
    requires (p + 1) * PAGESIZE <= |f|
    ensures Readable(f, p * PAGESIZE, WORDSIZE)
    ensures DecodeWord(f[p * PAGESIZE..p * PAGESIZE + WORDSIZE]) == Link(PageAt(f, p))
  {
    assert f[p * PAGESIZE..p * PAGESIZE + WORDSIZE] == PageAt(f, p)[0..WORDSIZE];
  }
}
