/**
 * Vocabulary shared by every part of the kernel model: optional values (a C pointer
 * that may be NULL), the memory-layout constants of the kernel, two's-complement
 * reinterpretation of machine integers, and segment selectors.
 */
module Common {

  /** A value that may be absent; `None` stands for a NULL pointer. */
  datatype Option<+T> = None | Some(value: T)

  const FOUR_KB: int := 0x1000
  const EIGHT_KB: int := 0x2000
  const FOUR_MB: int := 0x40_0000
  const EIGHT_MB: int := 0x80_0000
  const MB_128: int := 0x0800_0000
  const MB_132: int := 0x0840_0000

  /** Number of process slots. */
  const MAX_PROCS: int := 6
  /** File descriptors per process. */
  const MAX_FDS: int := 8
  /** Number of terminals. */
  const MAX_TERMS: int := 3

  const TWO_POW_32: int := 0x1_0000_0000

  /** A negative value above -2^32 reads as itself plus 2^32. */
  lemma U32OfNegative(x: int)
    requires -TWO_POW_32 <= x < 0
    ensures U32(x) == x + TWO_POW_32
  {
    assert x == (-1) * TWO_POW_32 + (x + TWO_POW_32);
  }

  /** A 32-bit address or unsigned machine word. */
  type Word = x: int | 0 <= x < TWO_POW_32

  /** The unsigned 32-bit value a C integer has when it is converted to uint32_t. */
  function U32(x: int): (r: Word)
    ensures (r - x) % TWO_POW_32 == 0
    ensures 0 <= x < TWO_POW_32 ==> r == x
  {
    x % TWO_POW_32
  }

  /** A byte of memory or of the file-system image. */
  type Byte = x: int | 0 <= x < 256

  /** The smaller of two integers. */
  function Min(a: int, b: int): (m: int)
    ensures m <= a && m <= b && (m == a || m == b)
  {
    if a < b then a else b
  }

  const NUL: char := '\0'

  /** The characters of a C string before its terminator; it holds no NUL. */
  type CString = s: seq<char> | NUL !in s

  /**
   * Segment selectors. Their numeric values live in a header that is not part of
   * this model, so they are kept symbolic.
   */
  datatype Segment = KernelCode | KernelData | UserCode | UserData | NullSelector

  /** Saved stack and frame pointers of a kernel context. */
  datatype Context = Context(esp: int, ebp: int)
}
