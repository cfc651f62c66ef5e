/**
 * The byte-level view of a file that libtree.c gets from `fread`, `fseek` and `getc`:
 * little-endian fields, 64-bit wrap-around, the `long` offset of `fseek`, and the
 * NUL-terminated strings copied out of the string table.
 */
module ElfBytes {

  /** One byte of a file. */
  type Byte = b: int | 0 <= b < 256

  /** `MAX_SIZE_T`, the "not set" sentinel of libtree.c. */
  const MAX_SIZE_T: int := 0xFFFF_FFFF_FFFF_FFFF
  const TWO_63: int := 0x8000_0000_0000_0000
  const TWO_64: int := 0x1_0000_0000_0000_0000

  /** An `fread` of `n` bytes at file position `pos` gets all of them. */
  predicate Fits(f: seq<Byte>, pos: int, n: nat)
  {
    0 <= pos && pos + n <= |f|
  }

  function LE16(f: seq<Byte>, pos: int): (v: nat)
    requires Fits(f, pos, 2)
    ensures v < 0x1_0000
  {
    f[pos] as int + 0x100 * (f[pos + 1] as int)
  }

  function LE32(f: seq<Byte>, pos: int): (v: nat)
    requires Fits(f, pos, 4)
    ensures v < 0x1_0000_0000
  {
    LE16(f, pos) + 0x1_0000 * LE16(f, pos + 2)
  }

  function LE64(f: seq<Byte>, pos: int): (v: nat)
    requires Fits(f, pos, 8)
    ensures v < TWO_64
  {
    LE32(f, pos) + 0x1_0000_0000 * LE32(f, pos + 4)
  }

  /** `uint64_t` arithmetic: the result modulo 2^64. */
  function Wrap64(x: int): (r: int)
    ensures 0 <= r < TWO_64
    ensures 0 <= x < TWO_64 ==> r == x
  {
    x % TWO_64
  }

  /**
   * `fseek(fp, off, SEEK_SET)` receives the unsigned offset as a signed `long`:
   * an offset of 2^63 or more arrives negative and the call fails. Seeking past the
   * end of the file succeeds; the read that follows does not.
   */
  predicate SeekOk(off: int)
  {
    0 <= off < TWO_63
  }

  /**
   * The bytes a loop `while ((c = getc(f)) != '\0' && c != EOF)` copies from position
   * `pos`. `c` is a `char`, so on a target where `char` is signed the byte 0xFF reads
   * as -1 == EOF and ends the string as well.
   */
  function CStringAt(f: seq<Byte>, pos: nat): (s: seq<Byte>)
    ensures pos <= |f| ==> pos + |s| <= |f| && s == f[pos..pos + |s|]
    ensures pos > |f| ==> s == []
    ensures pos + |s| >= |f| || f[pos + |s|] == 0 || f[pos + |s|] == 0xFF
    ensures forall i :: 0 <= i < |s| ==> s[i] != 0 && s[i] != 0xFF
    decreases |f| - pos
  {
    if pos >= |f| || f[pos] == 0 || f[pos] == 0xFF then []
    else [f[pos]] + CStringAt(f, pos + 1)
  }

  /** Bytes read into a `char` buffer. */
  function Chars(bs: seq<Byte>): (s: string)
    ensures |s| == |bs|
    ensures forall i :: 0 <= i < |bs| ==> s[i] as int == bs[i]
  {
    seq(|bs|, i requires 0 <= i < |bs| => bs[i] as char)
  }
}
