/**
 * The two fields of an ELF header that execute reads: the identification magic
 * 7F 'E' 'L' 'F' in bytes 0..3 and the 32-bit entry address e_entry in bytes
 * 24..27, stored least-significant byte first (TIS ELF 1.2, Book I, chapter 1,
 * "ELF Header"; the kernel runs on little-endian x86).
 */
module Elf {
  import opened Common

  const ELF_MAGIC: seq<Byte> := [0x7F, 0x45, 0x4C, 0x46]
  /** Byte offset of e_entry in the header. */
  const ENTRY_OFFSET: int := 24

  /** The 32-bit value held by four bytes, least significant first. */
  function Le32(b: seq<Byte>): (w: Word)
    requires |b| == 4
  {
    b[0] as int + 256 * (b[1] as int + 256 * (b[2] as int + 256 * b[3] as int))
  }

  /** The four bytes of a 32-bit value, least significant first. */
  function Le32Bytes(w: Word): (b: seq<Byte>)
    ensures |b| == 4
  {
    var w1 := w / 256;
    var w2 := w1 / 256;
    [w % 256, w1 % 256, w2 % 256, w2 / 256]
  }

  /** Splitting b + 256 x, for a byte b, into its low byte and the rest. */
  lemma LowByte(b: Byte, x: int)
    ensures (b + 256 * x) % 256 == b && (b + 256 * x) / 256 == x
  {
  }

  /** Storing a value and loading it back gives the value. */
  lemma Le32OfBytes(w: Word)
    ensures Le32(Le32Bytes(w)) == w
  {
    var w1 := w / 256;
    var w2 := w1 / 256;
    assert w == w % 256 + 256 * w1;
    assert w1 == w1 % 256 + 256 * w2;
    assert w2 == w2 % 256 + 256 * (w2 / 256);
  }

  /** Loading four bytes and storing the value back gives the bytes. */
  lemma BytesOfLe32(b: seq<Byte>)
    requires |b| == 4
    ensures Le32Bytes(Le32(b)) == b
  {
    var x2: int := b[2] as int + 256 * b[3] as int;
    var x1: int := b[1] as int + 256 * x2;
    LowByte(b[0], x1);
    LowByte(b[1], x2);
    LowByte(b[2], b[3]);
  }

  /**
   * A 4-byte buffer after read_data placed `data` at its start: the bytes a read
   * returns replace the front, the rest keeps what the buffer held.
   */
  function Fill(stale: seq<Byte>, data: seq<Byte>): (buf: seq<Byte>)
    requires |stale| == 4 && |data| <= 4
    ensures |buf| == 4 && buf[..|data|] == data && buf[|data|..] == stale[|data|..]
  {
    data + stale[|data|..]
  }

  /** The identification check: all four magic bytes present. */
  predicate HasMagic(buf: seq<Byte>)
    requires |buf| == 4
  {
    buf[0] == ELF_MAGIC[0] && buf[1] == ELF_MAGIC[1] && buf[2] == ELF_MAGIC[2] && buf[3] == ELF_MAGIC[3]
  }

  /** The check accepts exactly the magic. */
  lemma HasMagicIsMagic(buf: seq<Byte>)
    requires |buf| == 4
    ensures HasMagic(buf) <==> buf == ELF_MAGIC
  {
  }
}
