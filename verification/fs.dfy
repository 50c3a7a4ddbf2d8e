/**
 * The read-only file system. The image is a sequence of 4 KB blocks: the boot
 * block (counts and 63 directory entries), then N inode blocks, then the data
 * blocks. An inode holds a file length and 1023 data-block numbers; byte p of a
 * file is byte p mod 4096 of data block dblocks[p / 4096].
 */
module FileSystem {
  import opened Common
  import opened Process

  const MAX_DIRNAME_LEN: int := 32
  const BLOCK_SIZE: int := 4096
  const MAX_DENTRIES: int := 63
  const DBLOCKS_PER_INODE: int := 1023

  const FT_RTC: int := 0
  const FT_DIR: int := 1
  const FT_REG: int := 2

  /** A directory entry: a 32-byte name field (not necessarily terminated), a type and an inode. */
  datatype Dentry = Dentry(name: seq<char>, fileType: int, inode: int)

  /** An inode: the file length in bytes and 1023 data-block numbers. */
  datatype Inode = Inode(length: int, dblocks: seq<int>)

  /** The boot block's three counts, its 63 entries, the inodes and the data blocks. */
  datatype Image = Image(
    numDentries: int,
    numInodes: int,
    numDataBlocks: int,
    dentries: seq<Dentry>,
    inodes: seq<Inode>,
    blocks: seq<seq<Byte>>)

  /** The shape every image has by construction of its fixed-size records. */
  predicate Shaped(img: Image)
  {
    |img.dentries| == MAX_DENTRIES
    && (forall i :: 0 <= i < MAX_DENTRIES ==> |img.dentries[i].name| == MAX_DIRNAME_LEN)
    && img.numInodes == |img.inodes|
    && (forall i :: 0 <= i < |img.inodes| ==> |img.inodes[i].dblocks| == DBLOCKS_PER_INODE)
    && img.numDataBlocks == |img.blocks|
    && (forall b :: 0 <= b < |img.blocks| ==> |img.blocks[b]| == BLOCK_SIZE)
  }

  /** Number of data blocks a file of `length` bytes occupies. */
  function BlocksOf(length: nat): nat
  {
    (length + BLOCK_SIZE - 1) / BLOCK_SIZE
  }

  /** Inode `ino` describes a file: its length fits 1023 blocks and each block it uses exists. */
  predicate FileWellFormed(img: Image, ino: int)
    requires Shaped(img)
  {
    0 <= ino < img.numInodes
    && 0 <= img.inodes[ino].length <= DBLOCKS_PER_INODE * BLOCK_SIZE
    && forall k :: 0 <= k < BlocksOf(img.inodes[ino].length)
         ==> 0 <= img.inodes[ino].dblocks[k] < img.numDataBlocks
  }

  /** A well-formed image: shaped, and every inode describes a file. */
  predicate ImageValid(img: Image)
  {
    Shaped(img) && forall ino :: 0 <= ino < img.numInodes ==> FileWellFormed(img, ino)
  }

  lemma BlockOfByteUsed(length: nat, p: nat)
    requires p < length
    ensures p / BLOCK_SIZE < BlocksOf(length)
  {
  }

  /** Byte p of file `ino`, read through its inode. */
  function FileByte(img: Image, ino: int, p: nat): Byte
    requires Shaped(img) && FileWellFormed(img, ino) && p < img.inodes[ino].length
  {
    BlockOfByteUsed(img.inodes[ino].length, p);
    img.blocks[img.inodes[ino].dblocks[p / BLOCK_SIZE]][p % BLOCK_SIZE]
  }

  /** The whole content of file `ino`. */
  function FileContent(img: Image, ino: int): (c: seq<Byte>)
    requires Shaped(img) && FileWellFormed(img, ino)
    ensures |c| == img.inodes[ino].length
  {
    seq(img.inodes[ino].length, p requires 0 <= p < img.inodes[ino].length => FileByte(img, ino, p))
  }

  // ---------------------------------------------------------------------------
  // Names

  /** strlen of a name field: the index of its first NUL, or its length if it has none. */
  function CLen(s: seq<char>): (n: nat)
    ensures n <= |s|
    ensures NUL !in s[..n]
    ensures n < |s| ==> s[n] == NUL
  {
    if s == [] then 0
    else if s[0] == NUL then 0
    else
      assert s[..1 + CLen(s[1..])] == [s[0]] + s[1..][..CLen(s[1..])];
      1 + CLen(s[1..])
  }

  /** The first NUL is unique: any n with those two properties is CLen. */
  lemma {:induction false} CLenUnique(s: seq<char>, n: nat)
    requires n <= |s| && NUL !in s[..n] && (n < |s| ==> s[n] == NUL)
    ensures CLen(s) == n
  {
    if n > 0 {
      assert s[0] == s[..n][0];
      assert s[1..][..n - 1] == s[1..n];
      assert forall c :: c in s[1..n] ==> c in s[..n];
      CLenUnique(s[1..], n - 1);
    }
  }

  /** A name field read as a C string: the characters before its first NUL (at most 32). */
  function DisplayName(name: seq<char>): (d: CString)
    ensures |d| <= |name| && d == name[..|d|]
  {
    name[..CLen(name)]
  }

  /**
   * strncmp(a, b, n) == 0: the first n characters agree, where the comparison
   * stops early at a common NUL.
   */
  function StrnEq(a: seq<char>, b: seq<char>, n: nat): bool
    requires n <= |a| && n <= |b|
  {
    n == 0 || (a[0] == b[0] && (a[0] == NUL || StrnEq(a[1..], b[1..], n - 1)))
  }

  /** Without a NUL in b's first n characters, strncmp compares plain prefixes. */
  lemma {:induction false} StrnEqUnterminated(a: seq<char>, b: seq<char>, n: nat)
    requires n <= |a| && n <= |b|
    requires forall j :: 0 <= j < n ==> b[j] != NUL
    ensures StrnEq(a, b, n) <==> a[..n] == b[..n]
  {
    if n > 0 {
      StrnEqUnterminated(a[1..], b[1..], n - 1);
      assert a[..n] == [a[0]] + a[1..][..n - 1];
      assert b[..n] == [b[0]] + b[1..][..n - 1];
      if a[..n] == b[..n] {
        assert a[0] == b[0];
      }
    }
  }

  /** Comparing f together with its terminator asks for an exact C-string match. */
  lemma {:induction false} StrnEqTerminated(a: seq<char>, f: CString)
    requires |f| < |a|
    ensures StrnEq(a, f + [NUL], |f| + 1) <==> a[..|f|] == f && a[|f|] == NUL
  {
    if |f| > 0 {
      assert (f + [NUL])[1..] == f[1..] + [NUL];
      assert f[0] != NUL by { assert f[0] in f; }
      StrnEqTerminated(a[1..], f[1..]);
      assert a[..|f|] == [a[0]] + a[1..][..|f| - 1];
      assert f == [f[0]] + f[1..];
      if a[..|f|] == f {
        assert a[0] == f[0];
      }
    }
  }

  /** How many bytes the lookup compares: the name and its NUL, or 32 for a 32-character name. */
  function CompareLength(fnameLen: nat): nat
  {
    if fnameLen < MAX_DIRNAME_LEN then fnameLen + 1 else MAX_DIRNAME_LEN
  }

  /** The lookup's strncmp accepts a name field exactly when its C string equals f. */
  lemma StrnEqMatchesDisplayName(name: seq<char>, f: CString)
    requires |name| == MAX_DIRNAME_LEN && |f| <= MAX_DIRNAME_LEN
    ensures StrnEq(name, f + [NUL], CompareLength(|f|)) <==> DisplayName(name) == f
  {
    if |f| < MAX_DIRNAME_LEN {
      StrnEqTerminated(name, f);
      if name[..|f|] == f && name[|f|] == NUL {
        CLenUnique(name, |f|);
      }
    } else {
      forall j | 0 <= j < |f| ensures (f + [NUL])[j] != NUL {
        assert f[j] in f;
      }
      StrnEqUnterminated(name, f + [NUL], |f|);
      assert (f + [NUL])[..|f|] == f;
      assert name[..|f|] == name;
      if name == f {
        CLenUnique(name, |f|);
      }
    }
  }

  /**
   * Index of the first entry from `i` on, among the first numDentries, whose name
   * matches f; -1 if none.
   */
  function FindDentry(img: Image, f: CString, i: nat): (r: int)
    requires Shaped(img) && img.numDentries <= MAX_DENTRIES && |f| <= MAX_DIRNAME_LEN
    ensures r == -1 || (i <= r < img.numDentries && DisplayName(img.dentries[r].name) == f)
    ensures r == -1 <==> forall j :: i <= j < img.numDentries ==> DisplayName(img.dentries[j].name) != f
    ensures r >= 0 ==> forall j :: i <= j < r ==> DisplayName(img.dentries[j].name) != f
    decreases img.numDentries - i
  {
    if i >= img.numDentries then -1
    else
      StrnEqMatchesDisplayName(img.dentries[i].name, f);
      if StrnEq(img.dentries[i].name, f + [NUL], CompareLength(|f|)) then i
      else FindDentry(img, f, i + 1)
  }

  /**
   * read_dentry_by_name: the first of the first numDentries entries whose name is
   * f. Fails for a NULL name or output, a count above 63, or a name over 32
   * characters.
   */
  function ReadDentryByName(img: Image, fname: Option<CString>, outNull: bool): (r: Option<Dentry>)
    requires Shaped(img)
    ensures fname.None? || outNull || img.numDentries > MAX_DENTRIES ==> r.None?
    ensures fname.Some? && |fname.value| > MAX_DIRNAME_LEN ==> r.None?
    ensures r.Some? <==>
      fname.Some? && !outNull && img.numDentries <= MAX_DENTRIES && |fname.value| <= MAX_DIRNAME_LEN
      && exists j :: 0 <= j < img.numDentries && DisplayName(img.dentries[j].name) == fname.value
    ensures r.Some? ==> exists j :: 0 <= j < img.numDentries && img.dentries[j] == r.value
                                    && DisplayName(r.value.name) == fname.value
                                    && forall q :: 0 <= q < j ==> DisplayName(img.dentries[q].name) != fname.value
  {
    if fname.None? || outNull then None
    else if img.numDentries > MAX_DENTRIES then None
    else if |fname.value| > MAX_DIRNAME_LEN then None
    else
      var j := FindDentry(img, fname.value, 0);
      if j < 0 then None else Some(img.dentries[j])
  }

  /**
   * read_dentry_by_index: entry `index` when it is below numDentries. The bound is
   * compared unsigned, so a negative count admits every index; the caller must
   * then stay within the 63 stored entries.
   */
  function ReadDentryByIndex(img: Image, index: Word, outNull: bool): (r: Option<Dentry>)
    requires Shaped(img)
    requires !outNull && index < U32(img.numDentries) ==> index < MAX_DENTRIES
    ensures r.Some? <==> !outNull && index < U32(img.numDentries)
    ensures r.Some? ==> r.value == img.dentries[index]
  {
    if outNull then None
    else if index >= U32(img.numDentries) then None
    else Some(img.dentries[index])
  }

  /** A successful name lookup returns the entry found again by index. */
  lemma LookupsAgree(img: Image, f: CString)
    requires Shaped(img) && 0 <= img.numDentries <= MAX_DENTRIES && |f| <= MAX_DIRNAME_LEN
    requires ReadDentryByName(img, Some(f), false).Some?
    ensures FindDentry(img, f, 0) >= 0
    ensures ReadDentryByIndex(img, FindDentry(img, f, 0), false) == ReadDentryByName(img, Some(f), false)
  {
  }

  // ---------------------------------------------------------------------------
  // Reading data

  /** Data-block number the copy uses for file block b; past slot 1022 it keeps the last one. */
  function BlockPtr(f: Inode, b: nat): int
    requires |f.dblocks| == DBLOCKS_PER_INODE
  {
    f.dblocks[if b < DBLOCKS_PER_INODE then b else DBLOCKS_PER_INODE - 1]
  }

  /**
   * Image address (block * 4096 + byte) from which the copy takes file byte p:
   * data block `ptr` is image block N + 1 + ptr.
   */
  function Loc(img: Image, f: Inode, p: nat): int
    requires |f.dblocks| == DBLOCKS_PER_INODE
  {
    (img.numInodes + 1 + BlockPtr(f, p / BLOCK_SIZE)) * BLOCK_SIZE + p % BLOCK_SIZE
  }

  /** The byte at an image address inside the data region. */
  function ImageByte(img: Image, loc: int): Byte
    requires Shaped(img)
    requires (img.numInodes + 1) * BLOCK_SIZE <= loc < (img.numInodes + 1 + img.numDataBlocks) * BLOCK_SIZE
  {
    img.blocks[loc / BLOCK_SIZE - img.numInodes - 1][loc % BLOCK_SIZE]
  }

  lemma DivModBlock(q: int, r: int)
    requires 0 <= r < BLOCK_SIZE
    ensures (q * BLOCK_SIZE + r) / BLOCK_SIZE == q && (q * BLOCK_SIZE + r) % BLOCK_SIZE == r
  {
  }

  /** The image address of a file byte holds that byte. */
  lemma LocHoldsFileByte(img: Image, ino: int, p: nat)
    requires Shaped(img) && FileWellFormed(img, ino) && p < img.inodes[ino].length
    ensures var loc := Loc(img, img.inodes[ino], p);
      (img.numInodes + 1) * BLOCK_SIZE <= loc < (img.numInodes + 1 + img.numDataBlocks) * BLOCK_SIZE
      && ImageByte(img, loc) == FileByte(img, ino, p)
  {
    var f := img.inodes[ino];
    BlockOfByteUsed(f.length, p);
    var b := p / BLOCK_SIZE;
    assert b < DBLOCKS_PER_INODE;
    DivModBlock(img.numInodes + 1 + f.dblocks[b], p % BLOCK_SIZE);
  }

  /** The byte read_data copies for file byte p. */
  function CopiedByte(img: Image, ino: int, p: nat): Byte
    requires Shaped(img) && FileWellFormed(img, ino) && p < img.inodes[ino].length
  {
    LocHoldsFileByte(img, ino, p);
    ImageByte(img, Loc(img, img.inodes[ino], p))
  }

  /** Result of a data read: the return value and the bytes placed in the buffer. */
  datatype DataRead = DataRead(count: int, bytes: seq<Byte>)

  /**
   * read_data, with the intended behaviour: from byte `offset` of file `inode`,
   * copy min(length, length of file - offset) bytes, nothing at or past the end.
   * Fails for an inode number not below the inode count (compared unsigned) and
   * for a NULL buffer.
   */
  function ReadData(img: Image, inode: Word, offset: Word, bufNull: bool, length: Word): (r: DataRead)
    requires ImageValid(img)
    ensures r.count == -1 <==> inode >= img.numInodes || bufNull
    ensures r.count == -1 ==> r.bytes == []
    ensures r.count != -1 ==>
      var content := FileContent(img, inode);
      r.count == |r.bytes|
      && (offset >= |content| ==> r.count == 0)
      && (offset < |content| ==> r.count == Min(length, |content| - offset)
                                 && r.bytes == content[offset..offset + r.count])
  {
    if inode >= img.numInodes || bufNull then DataRead(-1, [])
    else
      var len := img.inodes[inode].length;
      var count := if offset >= len then 0 else Min(length, len - offset);
      var bytes := seq(count, k requires 0 <= k < count => CopiedByte(img, inode, offset + k));
      assert count > 0 ==> bytes == FileContent(img, inode)[offset..offset + count] by {
        if count > 0 {
          forall k | 0 <= k < count
            ensures bytes[k] == FileContent(img, inode)[offset..offset + count][k]
          {
            LocHoldsFileByte(img, inode, offset + k);
            assert bytes[k] == CopiedByte(img, inode, offset + k);
            assert FileContent(img, inode)[offset + k] == FileByte(img, inode, offset + k);
          }
        }
      }
      DataRead(count, bytes)
  }

  /** Image addresses base, base + 1, ..., base + n - 1. */
  function Range(base: int, n: nat): (s: seq<int>)
    ensures |s| == n && forall k :: 0 <= k < n ==> s[k] == base + k
  {
    seq(n, k => base + k)
  }

  /**
   * How many bytes the code as written copies: the remaining length is computed
   * as an unsigned difference, which wraps to a huge value when offset is past the
   * end of the file.
   */
  function AsWrittenCount(fileLength: int, offset: Word, length: Word): Word
  {
    if U32(fileLength - offset) < length then U32(fileLength - offset) else length
  }

  /** Bytes of the first block the copy takes before moving to the next block. */
  function FirstChunk(offset: Word): nat
  {
    BLOCK_SIZE - offset % BLOCK_SIZE
  }

  lemma SameBlock(offset: nat, k: nat)
    requires offset % BLOCK_SIZE + k < BLOCK_SIZE
    ensures (offset + k) / BLOCK_SIZE == offset / BLOCK_SIZE
    ensures (offset + k) % BLOCK_SIZE == offset % BLOCK_SIZE + k
  {
  }

  /**
   * read_data as written, reporting the image addresses it copies from in order.
   * When the read spans more than the first block, the first chunk is taken from
   * `offset` bytes past where it should be (the block pointer already includes
   * the in-block offset and the offset is added again). The starting block slot
   * offset / 4096 is read before anything else, so it must lie within the inode.
   */
  method ReadDataAsWritten(img: Image, inode: Word, offset: Word, bufNull: bool, length: Word)
    returns (count: int, locs: seq<int>)
    requires Shaped(img)
    requires inode < img.numInodes && !bufNull ==> offset / BLOCK_SIZE < DBLOCKS_PER_INODE
    ensures count == -1 <==> inode >= img.numInodes || bufNull
    ensures count == -1 ==> locs == []
    ensures count != -1 ==>
      var f := img.inodes[inode];
      count == AsWrittenCount(f.length, offset, length) && |locs| == count
      && (count > FirstChunk(offset) ==>
            forall k :: 0 <= k < FirstChunk(offset) ==> locs[k] == Loc(img, f, offset + k) + offset)
      && (forall k :: (if count > FirstChunk(offset) then FirstChunk(offset) else 0) <= k < count
            ==> locs[k] == Loc(img, f, offset + k))
    ensures count != -1 ==>
      forall k :: 0 <= k < count ==> locs[k] == AsWrittenLoc(img, img.inodes[inode], offset, count, k)
  {
    if inode >= img.numInodes || bufNull {
      return -1, [];
    }
    var f := img.inodes[inode];
    var n := img.numInodes;
    var idx := offset / BLOCK_SIZE;
    var ptr := f.dblocks[idx];
    var cur := (n + 1 + ptr) * BLOCK_SIZE + offset % BLOCK_SIZE;
    var remaining := AsWrittenCount(f.length, offset, length);
    ghost var total := remaining;
    var first := FirstChunk(offset);
    if remaining > first {
      locs := Range(cur + offset, first);
      InBlockLocs(img, f, offset, first);
      count := first;
      remaining := remaining - first;
      idx := idx + 1;
      if idx < DBLOCKS_PER_INODE {
        ptr := f.dblocks[idx];
      }
      cur := (n + 1 + ptr) * BLOCK_SIZE;
      assert (offset + count) % BLOCK_SIZE == 0 && (offset + count) / BLOCK_SIZE == idx;
    } else {
      locs := Range(cur, remaining);
      InBlockLocs(img, f, offset, remaining);
      count := remaining;
      remaining := 0;
    }
    while remaining > 0
      invariant 0 <= remaining && count + remaining == total
      invariant |locs| == count
      invariant remaining > 0 ==>
        (offset + count) % BLOCK_SIZE == 0 && idx == (offset + count) / BLOCK_SIZE
        && ptr == BlockPtr(f, idx) && cur == (n + 1 + ptr) * BLOCK_SIZE
      invariant total > first ==> count >= first
      invariant total > first ==> forall k :: 0 <= k < first ==> locs[k] == Loc(img, f, offset + k) + offset
      invariant forall k :: (if total > first then first else 0) <= k < count ==> locs[k] == Loc(img, f, offset + k)
      decreases remaining
    {
      var chunk := if remaining > BLOCK_SIZE then BLOCK_SIZE else remaining;
      var before := count;
      locs := locs + Range(cur, chunk);
      count := count + chunk;
      BlockChunkLocs(img, f, offset + before, chunk);
      remaining := remaining - chunk;
      if (count + offset) % BLOCK_SIZE == 0 {
        idx := idx + 1;
        if idx < DBLOCKS_PER_INODE {
          ptr := f.dblocks[idx];
        }
        cur := (n + 1 + ptr) * BLOCK_SIZE;
      }
    }
  }

  /** Bytes from `offset` up to the end of its block come from consecutive addresses of that block. */
  lemma InBlockLocs(img: Image, f: Inode, offset: Word, n: nat)
    requires |f.dblocks| == DBLOCKS_PER_INODE && n <= FirstChunk(offset)
    ensures forall p :: offset <= p < offset + n ==>
      Loc(img, f, p) == (img.numInodes + 1 + BlockPtr(f, offset / BLOCK_SIZE)) * BLOCK_SIZE + offset % BLOCK_SIZE + (p - offset)
  {
    forall p | offset <= p < offset + n
      ensures Loc(img, f, p) == (img.numInodes + 1 + BlockPtr(f, offset / BLOCK_SIZE)) * BLOCK_SIZE + offset % BLOCK_SIZE + (p - offset)
    {
      SameBlock(offset, p - offset);
    }
  }

  /** A chunk copied from the start of a block comes from consecutive addresses of that block. */
  lemma BlockChunkLocs(img: Image, f: Inode, start: nat, chunk: nat)
    requires |f.dblocks| == DBLOCKS_PER_INODE && start % BLOCK_SIZE == 0 && chunk <= BLOCK_SIZE
    ensures forall p :: start <= p < start + chunk ==>
      Loc(img, f, p) == (img.numInodes + 1 + BlockPtr(f, start / BLOCK_SIZE)) * BLOCK_SIZE + (p - start)
  {
    forall p | start <= p < start + chunk
      ensures Loc(img, f, p) == (img.numInodes + 1 + BlockPtr(f, start / BLOCK_SIZE)) * BLOCK_SIZE + (p - start)
    {
      DivModBlock(start / BLOCK_SIZE, p - start);
      assert p == start / BLOCK_SIZE * BLOCK_SIZE + (p - start);
    }
  }

  /**
   * Reading past the end: the code as written copies min(length, 2^32 - (offset -
   * file length)) bytes, so any ordinary length in full, where the intended read
   * copies none.
   */
  lemma PastEndReadsWrap(img: Image, inode: Word, offset: Word, length: Word)
    requires ImageValid(img) && inode < img.numInodes
    requires offset > img.inodes[inode].length
    ensures AsWrittenCount(img.inodes[inode].length, offset, length)
            == Min(length, TWO_POW_32 + img.inodes[inode].length - offset)
    ensures ReadData(img, inode, offset, false, length).count == 0
  {
    var len := img.inodes[inode].length;
    assert FileWellFormed(img, inode);
    U32OfNegative(len - offset);
  }

  /** The doubled offset sends a spanning read's first byte `offset` bytes too far. */
  lemma SpanningReadMisplaced(img: Image, ino: int, offset: Word)
    requires Shaped(img) && FileWellFormed(img, ino) && offset > 0
    ensures Loc(img, img.inodes[ino], offset) + offset != Loc(img, img.inodes[ino], offset)
  {
  }

  /** Address from which read_data as written copies byte k of a `count`-byte read at `offset`. */
  function AsWrittenLoc(img: Image, f: Inode, offset: Word, count: nat, k: nat): int
    requires |f.dblocks| == DBLOCKS_PER_INODE
  {
    if count > FirstChunk(offset) && k < FirstChunk(offset) then Loc(img, f, offset + k) + offset
    else Loc(img, f, offset + k)
  }

  /** Whether an image address lies in the data blocks. */
  predicate InData(img: Image, a: int)
  {
    (img.numInodes + 1) * BLOCK_SIZE <= a < (img.numInodes + 1 + img.numDataBlocks) * BLOCK_SIZE
  }

  /**
   * The byte at an address counted from the start of the image: the data-block
   * byte inside the data region, and `outside` anywhere else (the boot block and
   * inodes, or memory past the image).
   */
  function MemByte(img: Image, outside: int -> Byte, a: int): Byte
    requires Shaped(img)
  {
    if InData(img, a) then ImageByte(img, a) else outside(a)
  }

  /**
   * read_data as written, as a function: the count the code computes and, for
   * each byte, what memory holds at the address ReadDataAsWritten copies it from.
   */
  function AsWrittenRead(img: Image, inode: Word, offset: Word, bufNull: bool, length: Word,
                         outside: int -> Byte): (r: DataRead)
    requires Shaped(img)
    requires inode < img.numInodes && !bufNull ==> offset / BLOCK_SIZE < DBLOCKS_PER_INODE
    ensures r.count == -1 <==> inode >= img.numInodes || bufNull
    ensures r.count == -1 ==> r.bytes == []
    ensures r.count != -1 ==>
      r.count == AsWrittenCount(img.inodes[inode].length, offset, length) && |r.bytes| == r.count
  {
    if inode >= img.numInodes || bufNull then DataRead(-1, [])
    else
      var f := img.inodes[inode];
      var count := AsWrittenCount(f.length, offset, length);
      DataRead(count, seq(count, k requires 0 <= k < count =>
                             MemByte(img, outside, AsWrittenLoc(img, f, offset, count, k))))
  }

  /**
   * The code as written and the intended read agree on a read from inside the
   * file (or at its end) that starts at 0 or stays within its first block.
   */
  lemma AsWrittenReadAgrees(img: Image, inode: Word, offset: Word, bufNull: bool, length: Word,
                            outside: int -> Byte)
    requires ImageValid(img) && inode < img.numInodes
    requires offset <= img.inodes[inode].length && offset / BLOCK_SIZE < DBLOCKS_PER_INODE
    requires offset == 0 || Min(length, img.inodes[inode].length - offset) <= FirstChunk(offset)
    ensures AsWrittenRead(img, inode, offset, bufNull, length, outside) == ReadData(img, inode, offset, bufNull, length)
  {
    var f := img.inodes[inode];
    assert FileWellFormed(img, inode);
    if !bufNull {
      var a := AsWrittenRead(img, inode, offset, bufNull, length, outside);
      var d := ReadData(img, inode, offset, bufNull, length);
      assert U32(f.length - offset) == f.length - offset;
      assert a.count == d.count;
      forall k | 0 <= k < a.count
        ensures a.bytes[k] == d.bytes[k]
      {
        AsWrittenByteInPlace(img, inode, offset, a.count, k, outside);
      }
    }
  }

  /** A byte the code as written takes from its right address is the file's byte there. */
  lemma AsWrittenByteInPlace(img: Image, ino: int, offset: Word, count: nat, k: nat, outside: int -> Byte)
    requires Shaped(img) && FileWellFormed(img, ino) && offset + k < img.inodes[ino].length
    requires offset == 0 || count <= FirstChunk(offset)
    ensures MemByte(img, outside, AsWrittenLoc(img, img.inodes[ino], offset, count, k))
            == FileContent(img, ino)[offset + k]
  {
    LocHoldsFileByte(img, ino, offset + k);
  }

  // ---------------------------------------------------------------------------
  // File and directory operations

  /** file_open: succeeds when the name is found. */
  function FileOpen(img: Image, fname: Option<CString>): (rc: int)
    requires Shaped(img)
    ensures rc == 0 <==> ReadDentryByName(img, fname, false).Some?
    ensures rc == 0 || rc == -1
  {
    if ReadDentryByName(img, fname, false).None? then -1 else 0
  }

  /** Result of a file read: return value, bytes placed in the buffer, updated descriptor. */
  datatype FileReadResult = FileReadResult(count: int, bytes: seq<Byte>, fd: FdEntry)

  /**
   * file_read: reads from the descriptor's position and moves the position by the
   * returned count (including a -1 failure). A closed descriptor fails untouched.
   */
  function FileRead(img: Image, fd: FdEntry, bufNull: bool, nbytes: int): (r: FileReadResult)
    requires ImageValid(img)
    ensures !fd.inUse ==> r == FileReadResult(-1, [], fd)
    ensures fd.inUse ==> r.fd == fd.(position := fd.position + r.count)
    ensures fd.inUse ==> (r.count == -1 <==> bufNull || U32(fd.inode) >= img.numInodes)
    ensures fd.inUse && r.count != -1 && 0 <= fd.position < TWO_POW_32 ==>
      var content := FileContent(img, U32(fd.inode));
      (fd.position >= |content| ==> r.count == 0 && r.bytes == [])
      && (fd.position < |content| ==>
            r.count == Min(U32(nbytes), |content| - fd.position)
            && r.bytes == content[fd.position..fd.position + r.count])
  {
    if !fd.inUse then FileReadResult(-1, [], fd)
    else
      var d := ReadData(img, U32(fd.inode), U32(fd.position), bufNull, U32(nbytes));
      FileReadResult(d.count, d.bytes, fd.(position := fd.position + d.count))
  }

  /** A read from a position within the file returns the next `count` bytes of it. */
  lemma FileReadSlice(img: Image, fd: FdEntry, n: int)
    requires ImageValid(img) && fd.inUse && U32(fd.inode) < img.numInodes
    requires 0 <= fd.position <= img.inodes[U32(fd.inode)].length
    ensures var r := FileRead(img, fd, false, n);
      var content := FileContent(img, U32(fd.inode));
      0 <= r.count && fd.position + r.count <= |content|
      && r.bytes == content[fd.position..fd.position + r.count]
      && r.fd.position == fd.position + r.count
  {
    assert FileWellFormed(img, U32(fd.inode));
    var r := FileRead(img, fd, false, n);
    var content := FileContent(img, U32(fd.inode));
    if fd.position < |content| {
      assert r.bytes == content[fd.position..fd.position + r.count];
    } else {
      assert r.count == 0 && r.bytes == [];
    }
  }

  /** Two reads in a row return adjacent pieces of the file: the second starts where the first ended. */
  lemma ConsecutiveFileReads(img: Image, fd: FdEntry, n1: int, n2: int)
    requires ImageValid(img) && fd.inUse && U32(fd.inode) < img.numInodes
    requires 0 <= fd.position <= img.inodes[U32(fd.inode)].length
    ensures var r1 := FileRead(img, fd, false, n1);
      var r2 := FileRead(img, r1.fd, false, n2);
      var content := FileContent(img, U32(fd.inode));
      r1.count >= 0 && r2.count >= 0
      && r2.fd.position == fd.position + r1.count + r2.count <= |content|
      && r1.bytes + r2.bytes == content[fd.position..fd.position + r1.count + r2.count]
  {
    var ino := U32(fd.inode);
    var content := FileContent(img, ino);
    var p := fd.position;
    var r1 := FileRead(img, fd, false, n1);
    FileReadSlice(img, fd, n1);
    var fd1 := r1.fd;
    assert fd1.inode == fd.inode && fd1.inUse && fd1.position == p + r1.count;
    var r2 := FileRead(img, fd1, false, n2);
    FileReadSlice(img, fd1, n2);
    AdjacentSlices(content, p, p + r1.count, p + r1.count + r2.count);
  }

  /** Two adjacent slices of a sequence join into one. */
  lemma AdjacentSlices<T>(s: seq<T>, a: int, b: int, c: int)
    requires 0 <= a <= b <= c <= |s|
    ensures s[a..b] + s[b..c] == s[a..c]
  {
  }

  /**
   * file_read as the source calls it: read_data as written from the descriptor's
   * position, which then moves by the returned count. A closed descriptor fails
   * untouched. `outside` is the memory the misplaced addresses may reach.
   */
  function FileReadAsWritten(img: Image, fd: FdEntry, bufNull: bool, nbytes: int, outside: int -> Byte)
    : (r: FileReadResult)
    requires Shaped(img)
    requires fd.inUse && U32(fd.inode) < img.numInodes && !bufNull
             ==> U32(fd.position) / BLOCK_SIZE < DBLOCKS_PER_INODE
    ensures !fd.inUse ==> r == FileReadResult(-1, [], fd)
    ensures fd.inUse ==> r.fd == fd.(position := fd.position + r.count)
    ensures fd.inUse ==> (r.count == -1 <==> bufNull || U32(fd.inode) >= img.numInodes)
    ensures fd.inUse && r.count != -1 ==>
      r.count == AsWrittenCount(img.inodes[U32(fd.inode)].length, U32(fd.position), U32(nbytes))
      && |r.bytes| == r.count
  {
    if !fd.inUse then FileReadResult(-1, [], fd)
    else
      var d := AsWrittenRead(img, U32(fd.inode), U32(fd.position), bufNull, U32(nbytes), outside);
      FileReadResult(d.count, d.bytes, fd.(position := fd.position + d.count))
  }

  /**
   * file_read as written returns what the intended read returns when it starts
   * at position 0, or stays within the block it starts in.
   */
  lemma FileReadAsWrittenAgrees(img: Image, fd: FdEntry, bufNull: bool, nbytes: int, outside: int -> Byte)
    requires ImageValid(img) && U32(fd.inode) < img.numInodes
    requires 0 <= fd.position <= img.inodes[U32(fd.inode)].length
    requires U32(fd.position) / BLOCK_SIZE < DBLOCKS_PER_INODE
    requires fd.position == 0
             || Min(U32(nbytes), img.inodes[U32(fd.inode)].length - fd.position) <= FirstChunk(U32(fd.position))
    ensures FileReadAsWritten(img, fd, bufNull, nbytes, outside) == FileRead(img, fd, bufNull, nbytes)
  {
    assert FileWellFormed(img, U32(fd.inode));
    assert U32(fd.position) == fd.position;
    AsWrittenReadAgrees(img, U32(fd.inode), U32(fd.position), bufNull, U32(nbytes), outside);
  }

  /**
   * The misplaced first chunk seen through file_read: a read from a position p
   * in the first half of block 0 that runs past that block returns, for its
   * first 4096 - 2p bytes, the file from byte 2p on where byte p was due.
   */
  lemma SpanningReadSkipsAhead(img: Image, fd: FdEntry, nbytes: int, outside: int -> Byte)
    requires ImageValid(img) && fd.inUse && U32(fd.inode) < img.numInodes
    requires 0 < fd.position && 2 * fd.position < BLOCK_SIZE
    requires img.inodes[U32(fd.inode)].length > BLOCK_SIZE && fd.position + U32(nbytes) > BLOCK_SIZE
    ensures var r := FileReadAsWritten(img, fd, false, nbytes, outside);
      var content := FileContent(img, U32(fd.inode));
      r.count == Min(U32(nbytes), |content| - fd.position)
      && forall k :: 0 <= k < BLOCK_SIZE - 2 * fd.position ==> r.bytes[k] == content[2 * fd.position + k]
  {
    var ino := U32(fd.inode);
    var f := img.inodes[ino];
    var p := fd.position;
    assert FileWellFormed(img, ino);
    assert U32(p) == p && U32(f.length - p) == f.length - p;
    var r := FileReadAsWritten(img, fd, false, nbytes, outside);
    var content := FileContent(img, ino);
    assert r.count > FirstChunk(p);
    forall k | 0 <= k < BLOCK_SIZE - 2 * p
      ensures r.bytes[k] == content[2 * p + k]
    {
      SkippedByte(img, ino, p, r.count, k, outside);
    }
  }

  /** In a spanning read from p < 2048, byte k of the first chunk is the file's byte 2p + k. */
  lemma SkippedByte(img: Image, ino: int, p: Word, count: nat, k: nat, outside: int -> Byte)
    requires Shaped(img) && FileWellFormed(img, ino) && 2 * p + k < BLOCK_SIZE < img.inodes[ino].length
    requires count > FirstChunk(p)
    ensures MemByte(img, outside, AsWrittenLoc(img, img.inodes[ino], p, count, k))
            == FileContent(img, ino)[2 * p + k]
  {
    SameBlock(0, p + k);
    SameBlock(0, 2 * p + k);
    LocHoldsFileByte(img, ino, 2 * p + k);
  }

  /**
   * Reading an 8000-byte file from the start, 100 bytes and then 5000: the
   * second read as written starts with the file from byte 200, where the
   * intended read gives it from byte 100.
   */
  lemma ReadAfterShortReadSkipsAhead(img: Image, fd: FdEntry, outside: int -> Byte)
    requires ImageValid(img) && fd.inUse && U32(fd.inode) < img.numInodes && fd.position == 0
    requires img.inodes[U32(fd.inode)].length == 8000
    ensures var r1 := FileReadAsWritten(img, fd, false, 100, outside);
      var r2 := FileReadAsWritten(img, r1.fd, false, 5000, outside);
      var content := FileContent(img, U32(fd.inode));
      r1.bytes == content[..100] && r2.count == 5000 && r2.fd.position == 5100
      && r2.bytes[..3896] == content[200..4096]
      && FileRead(img, r1.fd, false, 5000).bytes[..3896] == content[100..3996]
  {
    var content := FileContent(img, U32(fd.inode));
    var r1 := FileReadAsWritten(img, fd, false, 100, outside);
    FileReadAsWrittenAgrees(img, fd, false, 100, outside);
    FileReadSlice(img, fd, 100);
    var fd1 := r1.fd;
    assert fd1.inUse && fd1.inode == fd.inode && fd1.position == 100;
    var r2 := FileReadAsWritten(img, fd1, false, 5000, outside);
    SpanningReadSkipsAhead(img, fd1, 5000, outside);
    assert r2.bytes[..3896] == content[200..4096];
    var i2 := FileRead(img, fd1, false, 5000);
    FileReadSlice(img, fd1, 5000);
    assert i2.bytes == content[100..5100];
  }

  /** file_write: the file system is read-only. */
  function FileWrite(fd: int, nbytes: int): int { -1 }

  /** file_close: marks the descriptor closed. */
  function FileClose(fd: FdEntry): (r: (int, FdEntry))
    ensures r.0 == 0 && r.1 == fd.(inUse := false)
  {
    (0, fd.(inUse := false))
  }

  /** dir_open: rewinds the directory cursor; fails for a NULL name. */
  function DirOpen(fname: Option<CString>, cursor: Word): (r: (int, Word))
    ensures fname.None? <==> r.0 == -1
    ensures fname.None? ==> r.1 == cursor
    ensures fname.Some? ==> r.1 == 0
  {
    if fname.None? then (-1, cursor) else (0, 0)
  }

  /** Result of a directory read: return value, the 33 bytes written, cursor and descriptor. */
  datatype DirReadResult = DirReadResult(count: int, written: seq<char>, cursor: Word, fd: FdEntry)

  /** The 33 bytes dir_read writes: the name (at most 32 characters) then NULs. */
  function NameBuffer(name: seq<char>): (b: seq<char>)
    requires |name| == MAX_DIRNAME_LEN
    ensures |b| == MAX_DIRNAME_LEN + 1
  {
    DisplayName(name) + seq(MAX_DIRNAME_LEN + 1 - |DisplayName(name)|, _ => NUL)
  }

  /**
   * dir_read: writes the name of the entry at the cursor and advances the cursor,
   * returning the name's length; past the last entry it rewinds and returns 0.
   * Fails for descriptor 0, a NULL buffer or nbytes == 0. A successful read also
   * marks the descriptor in use and sets its inode to 0.
   */
  function DirRead(img: Image, cursor: Word, fdIndex: int, fd: FdEntry, bufNull: bool, nbytes: int): (r: DirReadResult)
    requires Shaped(img)
    requires cursor < U32(img.numDentries) ==> cursor < MAX_DENTRIES
    ensures fdIndex == 0 || bufNull || nbytes == 0 ==> r == DirReadResult(-1, [], cursor, fd)
    ensures r.count > 0 ==> |r.written| == MAX_DIRNAME_LEN + 1
    ensures !(fdIndex == 0 || bufNull || nbytes == 0) && cursor < U32(img.numDentries) ==>
      var name := img.dentries[cursor].name;
      r.count == CLen(name) && r.count <= MAX_DIRNAME_LEN && |r.written| == MAX_DIRNAME_LEN + 1
      && r.written[..r.count] == DisplayName(name)
      && (forall j :: r.count <= j < |r.written| ==> r.written[j] == NUL)
      && r.cursor == U32(cursor + 1) && r.fd == fd.(inUse := true, inode := 0)
    ensures !(fdIndex == 0 || bufNull || nbytes == 0) && cursor >= U32(img.numDentries) ==>
      r == DirReadResult(0, [], 0, fd)
  {
    if fdIndex == 0 || bufNull || nbytes == 0 then DirReadResult(-1, [], cursor, fd)
    else match ReadDentryByIndex(img, cursor, false)
      case Some(d) =>
        DirReadResult(CLen(d.name), NameBuffer(d.name), U32(cursor + 1), fd.(inUse := true, inode := 0))
      case None => DirReadResult(0, [], 0, fd)
  }

  /** Names listed by `n` successive directory reads starting at `cursor`, and the cursor after them. */
  function ListDir(img: Image, cursor: Word, n: nat): (r: (seq<seq<char>>, Word))
    requires Shaped(img) && 0 <= img.numDentries <= MAX_DENTRIES
    decreases n
  {
    if n == 0 then ([], cursor)
    else
      var step := DirRead(img, cursor, 2, FdEntry(DirOps, 0, 0, true), false, 1);
      var rest := ListDir(img, step.cursor, n - 1);
      ([step.written[..if step.count < 0 then 0 else step.count]] + rest.0, rest.1)
  }

  /**
   * Reading the directory from a rewound cursor lists every entry's name in order,
   * then the next read returns 0 and rewinds again.
   */
  lemma {:induction false} ListDirVisitsEveryEntry(img: Image, cursor: Word)
    requires Shaped(img) && 0 <= img.numDentries <= MAX_DENTRIES && cursor <= img.numDentries
    ensures var r := ListDir(img, cursor, img.numDentries - cursor);
      r.1 == img.numDentries && |r.0| == img.numDentries - cursor
      && forall j :: 0 <= j < |r.0| ==> r.0[j] == DisplayName(img.dentries[cursor + j].name)
    ensures DirRead(img, img.numDentries, 2, FdEntry(DirOps, 0, 0, true), false, 1)
            == DirReadResult(0, [], 0, FdEntry(DirOps, 0, 0, true))
    decreases img.numDentries - cursor
  {
    DirReadPastEnd(img, img.numDentries);
    if cursor < img.numDentries {
      ListDirVisitsEveryEntry(img, cursor + 1);
      ListDirStep(img, cursor, img.numDentries - cursor);
    }
  }

  /** One more read in front of a listing puts the name at the cursor in front of it. */
  lemma ListDirStep(img: Image, cursor: Word, n: nat)
    requires Shaped(img) && 0 <= img.numDentries <= MAX_DENTRIES && cursor < img.numDentries && n >= 1
    ensures ListDir(img, cursor, n).0 == [DisplayName(img.dentries[cursor].name)] + ListDir(img, cursor + 1, n - 1).0
    ensures ListDir(img, cursor, n).1 == ListDir(img, cursor + 1, n - 1).1
  {
    var step := DirRead(img, cursor, 2, FdEntry(DirOps, 0, 0, true), false, 1);
    assert step.cursor == cursor + 1;
    assert step.written[..step.count] == DisplayName(img.dentries[cursor].name);
  }

  /** A directory read at or past the entry count reads nothing and rewinds the cursor. */
  lemma DirReadPastEnd(img: Image, cursor: Word)
    requires Shaped(img) && 0 <= img.numDentries <= MAX_DENTRIES && cursor >= img.numDentries
    ensures DirRead(img, cursor, 2, FdEntry(DirOps, 0, 0, true), false, 1)
            == DirReadResult(0, [], 0, FdEntry(DirOps, 0, 0, true))
  {
    assert U32(img.numDentries) == img.numDentries;
  }

  /** dir_write: the file system is read-only. */
  function DirWrite(fd: int, nbytes: int): int { -1 }

  /** dir_close: closes the descriptor and rewinds the cursor; fails for descriptor 0. */
  function DirClose(fdIndex: int, fd: FdEntry, cursor: Word): (r: (int, FdEntry, Word))
    ensures fdIndex == 0 <==> r.0 == -1
    ensures fdIndex == 0 ==> r.1 == fd && r.2 == cursor
    ensures fdIndex != 0 ==> r.1 == fd.(inUse := false) && r.2 == 0
  {
    if fdIndex == 0 then (-1, fd, cursor) else (0, fd.(inUse := false), 0)
  }
}
