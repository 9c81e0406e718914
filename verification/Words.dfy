/** The 64-bit words and pages that the store reads and writes
    (src/lib/constants.h, src/lib/fileio.h). */
module Words {
  const PAGESIZE: nat := 4096
  const WORDSIZE: nat := 8

  type byte = x: int | 0 <= x < 256

  /** What calloc returns, and what a hole in the file reads as. */
  function Zeros(n: nat): (s: seq<byte>)
    ensures |s| == n && forall i | 0 <= i < n :: s[i] == 0
  {
    seq(n, _ => 0)
  }

  type Page = s: seq<byte> | |s| == PAGESIZE witness Zeros(PAGESIZE)

  const BLANK: Page := Zeros(PAGESIZE)

  const TWO_TO_THE_63: int := 0x8000_0000_0000_0000
  const TWO_TO_THE_64: int := 0x1_0000_0000_0000_0000

  /** The values of a ssize_t. */
  predicate IsWord(v: int) {
    -TWO_TO_THE_63 <= v < TWO_TO_THE_63
  }

  function LittleEndian(u: nat, n: nat): (s: seq<byte>)
    ensures |s| == n
  {
    if n == 0 then [] else [u % 256] + LittleEndian(u / 256, n - 1)
  }

  function Unsigned(s: seq<byte>): nat {
    if s == [] then 0 else s[0] + 256 * Unsigned(s[1..])
  }

  /** A ssize_t in memory: two's complement, least significant byte first. */
  function EncodeWord(v: int): (s: seq<byte>)
    ensures |s| == WORDSIZE
  {
    LittleEndian(v % TWO_TO_THE_64, WORDSIZE)
  }

  function DecodeWord(s: seq<byte>): int {
    var u := Unsigned(s);
    if u < TWO_TO_THE_63 then u else u - TWO_TO_THE_64
  }

  function Pow256(n: nat): nat {
    if n == 0 then 1 else 256 * Pow256(n - 1)
  }

  lemma {:induction false} UnsignedOfLittleEndian(u: nat, n: nat)
    requires u < Pow256(n)
    ensures Unsigned(LittleEndian(u, n)) == u
  {
    if n > 0 {
      UnsignedOfLittleEndian(u / 256, n - 1);
      assert LittleEndian(u, n)[1..] == LittleEndian(u / 256, n - 1);
    }
  }

  lemma {:induction false} LittleEndianOfUnsigned(s: seq<byte>)
    ensures Unsigned(s) < Pow256(|s|)
    ensures LittleEndian(Unsigned(s), |s|) == s
  {
    if s != [] {
      LittleEndianOfUnsigned(s[1..]);
      assert Unsigned(s) % 256 == s[0] && Unsigned(s) / 256 == Unsigned(s[1..]);
    }
  }

  lemma Pow256Of8()
    ensures Pow256(WORDSIZE) == TWO_TO_THE_64
  {
  }

  /** What a word was stored as is what it is read back as, for every ssize_t ... */
  lemma DecodeEncode(v: int)
    requires IsWord(v)
    ensures DecodeWord(EncodeWord(v)) == v
  {
    Pow256Of8();
    hide LittleEndian, Unsigned, Pow256;
    UnsignedOfLittleEndian(v % TWO_TO_THE_64, WORDSIZE);
  }

  /** ... and every eight bytes are some ssize_t. */
  lemma EncodeDecode(s: seq<byte>)
    requires |s| == WORDSIZE
    ensures IsWord(DecodeWord(s)) && EncodeWord(DecodeWord(s)) == s
  {
    Pow256Of8();
    LittleEndianOfUnsigned(s);
    hide LittleEndian, Unsigned, Pow256;
    assert DecodeWord(s) % TWO_TO_THE_64 == Unsigned(s);
  }

  // ----- words inside a page -----

  /** The word at index k of a struct that starts at the first byte of p. */
  function Field(p: Page, k: nat): int
    requires k < 3
  {
    DecodeWord(p[k * WORDSIZE..(k + 1) * WORDSIZE])
  }

  function SetField(p: Page, k: nat, v: int): Page
    requires k < 3
  {
    p[..k * WORDSIZE] + EncodeWord(v) + p[(k + 1) * WORDSIZE..]
  }

  lemma FieldOfSetField(p: Page, k: nat, v: int)
    requires k < 3 && IsWord(v)
    ensures Field(SetField(p, k, v), k) == v
    ensures forall j: nat | j < 3 && j != k :: Field(SetField(p, k, v), j) == Field(p, j)
  {
    var q := SetField(p, k, v);
    assert q[k * WORDSIZE..(k + 1) * WORDSIZE] == EncodeWord(v);
    DecodeEncode(v);
    forall j: nat | j < 3 && j != k
      ensures Field(q, j) == Field(p, j)
    {
      assert q[j * WORDSIZE..(j + 1) * WORDSIZE] == p[j * WORDSIZE..(j + 1) * WORDSIZE];
    }
  }

  // struct meta_page { size; freelist_head.offset; freelist_tail.offset }
  function Size(meta: Page): int { Field(meta, 0) }
  function Head(meta: Page): int { Field(meta, 1) }
  function Tail(meta: Page): int { Field(meta, 2) }

  // struct freepage { offset }, in a zeroed page
  function Link(page: Page): int { Field(page, 0) }
  function FreeImage(link: int): Page { SetField(BLANK, 0, link) }

  lemma LinkOfFreeImage(link: int)
    requires IsWord(link)
    ensures Link(FreeImage(link)) == link
  {
    FieldOfSetField(BLANK, 0, link);
  }

  /** A page on the free list is never blank, because no link is 0. */
  lemma FreeImageIsNotBlank(link: int)
    requires IsWord(link) && link != 0
    ensures FreeImage(link) != BLANK
  {
    LinkOfFreeImage(link);
    UnsignedOfZeros(BLANK[0..WORDSIZE]);
  }

  lemma {:induction false} UnsignedOfZeros(s: seq<byte>)
    requires forall i | 0 <= i < |s| :: s[i] == 0
    ensures Unsigned(s) == 0
  {
    if s != [] {
      UnsignedOfZeros(s[1..]);
    }
  }
}
