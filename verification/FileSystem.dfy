/**
  Reading files from the read-only image: one boot block, the inodes, then the data blocks,
  4 KB each.  `read_data` hops from block to block; it is shown to deliver a slice of the
  file's blocks laid end to end.  All addresses are counted from the boot block.
 */
module FileSystem {
  import opened Bytes
  import opened Layout
  import opened Arithmetic

  const MAX_BLOCKS: nat := 1023

  // ------------------------------------------------------------------ the image

  /** The little-endian 32-bit word at address `a`. */
  function Word(img: seq<Byte>, a: nat): (w: nat)
    requires a + 4 <= |img|
  {
    img[a] as int + 0x100 * (img[a + 1] as int) + 0x1_0000 * (img[a + 2] as int) + 0x100_0000 * (img[a + 3] as int)
  }

  function DirCount(img: seq<Byte>): nat
    requires |img| >= FOUR_KB
  {
    Word(img, 0)
  }

  function InodeCount(img: seq<Byte>): nat
    requires |img| >= FOUR_KB
  {
    Word(img, 4)
  }

  function InodeAt(inode: nat): nat {
    FOUR_KB * inode + FOUR_KB
  }

  /** The inode's own block lies in the image. */
  predicate HasInode(img: seq<Byte>, inode: nat) {
    |img| >= FOUR_KB && InodeAt(inode) + FOUR_KB <= |img|
  }

  function Length(img: seq<Byte>, inode: nat): nat
    requires HasInode(img, inode)
  {
    Word(img, InodeAt(inode))
  }

  /** Address of data block `k` of the file, as its inode gives it. */
  function BlockAt(img: seq<Byte>, inode: nat, k: nat): nat
    requires HasInode(img, inode) && k < MAX_BLOCKS
  {
    FOUR_KB * (Word(img, InodeAt(inode) + 4 + 4 * k) + InodeCount(img) + 1)
  }

  predicate HasBlock(img: seq<Byte>, inode: nat, k: nat)
    requires HasInode(img, inode)
  {
    k < MAX_BLOCKS && BlockAt(img, inode, k) + FOUR_KB <= |img|
  }

  /** Data block `k` of the file; a block that is not in the image stands for NULs. */
  function Block(img: seq<Byte>, inode: nat, k: nat): (b: seq<Byte>)
    requires HasInode(img, inode)
    ensures |b| == FOUR_KB
  {
    if HasBlock(img, inode, k) then img[BlockAt(img, inode, k)..BlockAt(img, inode, k) + FOUR_KB]
    else seq(FOUR_KB, _ => NUL)
  }

  /** The first `n` data blocks of the file laid end to end. */
  function Content(img: seq<Byte>, inode: nat, n: nat): (c: seq<Byte>)
    requires HasInode(img, inode)
    ensures |c| == FOUR_KB * n
  {
    if n == 0 then [] else Content(img, inode, n - 1) + Block(img, inode, n - 1)
  }

  /** Byte `j` of the laid-out blocks, found through the inode. */
  function ByteAt(img: seq<Byte>, inode: nat, j: nat): Byte
    requires HasInode(img, inode)
  {
    Block(img, inode, j / FOUR_KB)[j % FOUR_KB]
  }

  /** How many blocks hold the first `size` bytes. */
  function BlocksFor(size: nat): nat {
    (size + FOUR_KB - 1) / FOUR_KB
  }

  /** Every block the bytes offset .. offset + length touch lies in the image. */
  predicate Readable(img: seq<Byte>, inode: nat, offset: nat, length: nat)
    requires HasInode(img, inode)
  {
    && offset / FOUR_KB < MAX_BLOCKS
    && forall k | offset / FOUR_KB <= k < BlocksFor(offset + length) :: HasBlock(img, inode, k)
  }

  /** `s` is what the file holds from `offset` on. */
  ghost predicate Delivered(img: seq<Byte>, inode: nat, offset: nat, s: seq<Byte>)
    requires HasInode(img, inode)
  {
    forall i | 0 <= i < |s| :: s[i] == ByteAt(img, inode, offset + i)
  }

  // ------------------------------------------------------------------ laws of the layout

  lemma BlockIndex(j: nat, k: nat, from: nat)
    requires j == FOUR_KB * k + from && from < FOUR_KB
    ensures j / FOUR_KB == k && j % FOUR_KB == from
  {
  }

  /** The inode finds every byte where laying the blocks end to end puts it. */
  lemma {:induction false} ContentAt(img: seq<Byte>, inode: nat, n: nat, j: nat)
    requires HasInode(img, inode) && j < FOUR_KB * n
    ensures Content(img, inode, n)[j] == ByteAt(img, inode, j)
  {
    if j < FOUR_KB * (n - 1) {
      ContentAt(img, inode, n - 1, j);
    } else {
      BlockIndex(j, n - 1, j - FOUR_KB * (n - 1));
    }
  }

  lemma DeliveredTogether(img: seq<Byte>, inode: nat, out: seq<Byte>, more: seq<Byte>)
    requires HasInode(img, inode) && Delivered(img, inode, 0, out) && Delivered(img, inode, |out|, more)
    ensures Delivered(img, inode, 0, out + more)
  {
  }

  /**
    Main result: bytes found through the inode, as read_data delivers them, are that slice of
    the file's blocks laid end to end, however many blocks are laid out.
   */
  lemma ContentSlice(img: seq<Byte>, inode: nat, offset: nat, s: seq<Byte>, n: nat)
    requires HasInode(img, inode) && offset + |s| <= FOUR_KB * n
    requires Delivered(img, inode, offset, s)
    ensures s == Content(img, inode, n)[offset..offset + |s|]
  {
    var part := Content(img, inode, n)[offset..offset + |s|];
    forall i | 0 <= i < |s|
      ensures s[i] == part[i]
    {
      ContentAt(img, inode, n, offset + i);
    }
  }

  // ------------------------------------------------------------------ read_data

  /** memcpy(buf + at, image + src, n). */
  method CopyOut(img: seq<Byte>, src: nat, buf: array<Byte>, at: nat, n: nat)
    requires src + n <= |img| && at + n <= buf.Length
    modifies buf
    ensures forall k | at <= k < at + n :: buf[k] == img[src + (k - at)]
    ensures forall k | 0 <= k < buf.Length && !(at <= k < at + n) :: buf[k] == old(buf[k])
  {
    for i := 0 to n
      invariant forall k | at <= k < at + i :: buf[k] == img[src + (k - at)]
      invariant forall k | 0 <= k < buf.Length && !(at <= k < at + i) :: buf[k] == old(buf[k])
    {
      buf[at + i] := img[src + i];
    }
  }

  /** What read_data and fread return: the request length, however little of the file is left. */
  function ReadResult(img: seq<Byte>, inode: nat, offset: nat, length: nat): nat
    requires HasInode(img, inode)
  {
    if offset >= Length(img, inode) then 0 else length
  }

  /**
    Main result: below the end of the file the requested bytes are copied, block boundaries or
    not, so that they are a slice of the file's blocks laid end to end (`ContentSlice`); from the
    end on nothing is copied.  Only blocks the request touches need be, and are, read.
   */
  method ReadData(img: seq<Byte>, inode: nat, offset: nat, buf: array<Byte>, length: nat) returns (r: nat)
    requires HasInode(img, inode) && length <= buf.Length
    requires offset < Length(img, inode) ==> Readable(img, inode, offset, length)
    modifies buf
    ensures r == ReadResult(img, inode, offset, length)
    ensures Delivered(img, inode, offset, buf[..r])
    ensures forall k | r <= k < buf.Length :: buf[k] == old(buf[k])
  {
    if offset >= Length(img, inode) {
      return 0;
    }
    var blkIdx: nat, bOffset: nat := offset / FOUR_KB, offset % FOUR_KB;
    var at: nat, left: nat := 0, length;
    while FOUR_KB - bOffset < left
      invariant at + left == length && bOffset < FOUR_KB
      invariant offset + at == FOUR_KB * blkIdx + bOffset
      invariant forall i | 0 <= i < at :: buf[i] == ByteAt(img, inode, offset + i)
      invariant forall k | at <= k < buf.Length :: buf[k] == old(buf[k])
      decreases left
    {
      CopyChunk(img, inode, offset, length, buf, at, blkIdx, bOffset, FOUR_KB - bOffset);
      at := at + (FOUR_KB - bOffset);
      left := left - (FOUR_KB - bOffset);
      blkIdx := blkIdx + 1;
      bOffset := 0;
    }
    CopyChunk(img, inode, offset, length, buf, at, blkIdx, bOffset, left);
    return length;
  }

  /** Copies the next `n` bytes, which lie in block `blkIdx` from `bOffset` on. */
  method CopyChunk(img: seq<Byte>, inode: nat, offset: nat, length: nat, buf: array<Byte>,
                   at: nat, blkIdx: nat, bOffset: nat, n: nat)
    requires HasInode(img, inode) && Readable(img, inode, offset, length)
    requires at + n <= length <= buf.Length && bOffset + n <= FOUR_KB
    requires offset + at == FOUR_KB * blkIdx + bOffset
    modifies buf
    ensures forall i | at <= i < at + n :: buf[i] == ByteAt(img, inode, offset + i)
    ensures forall k | 0 <= k < buf.Length && !(at <= k < at + n) :: buf[k] == old(buf[k])
  {
    if n > 0 {
      TouchesBlock(img, inode, offset, length, blkIdx, at);
      CopyOut(img, BlockAt(img, inode, blkIdx) + bOffset, buf, at, n);
      forall i | at <= i < at + n
        ensures buf[i] == ByteAt(img, inode, offset + i)
      {
        BlockIndex(offset + i, blkIdx, bOffset + (i - at));
      }
    }
  }

  lemma TouchesBlock(img: seq<Byte>, inode: nat, offset: nat, length: nat, k: nat, at: nat)
    requires HasInode(img, inode) && Readable(img, inode, offset, length)
    requires at < length && FOUR_KB * k <= offset + at < FOUR_KB * k + FOUR_KB
    ensures HasBlock(img, inode, k)
  {
  }

  // ------------------------------------------------------------------ fread

  lemma CeilingIs(size: nat, n: nat, calls: nat)
    requires n > 0 && size <= n * calls && (calls == 0 || n * (calls - 1) < size)
    ensures (size + n - 1) / n == calls
  {
    if calls > 0 {
      assert n * calls == n * (calls - 1) + n;
    }
    DivisionIs(size + n - 1, n, calls);
  }

  lemma Positive(n: nat, m: int)
    requires n * m > 0
    ensures n * m >= n
  {
  }

  /** If `n` divides the block size, a read of `n` bytes at a multiple of `n` stays in one block. */
  lemma StaysInBlock(n: nat, calls: nat)
    requires 0 < n && FOUR_KB % n == 0
    ensures n * calls % FOUR_KB + n <= FOUR_KB
  {
    var d, q := FOUR_KB / n, n * calls / FOUR_KB;
    assert FOUR_KB == n * d;
    var gap := d - calls + d * q;
    assert n * gap == FOUR_KB - n * calls % FOUR_KB by {
      assert n * gap == n * d - n * calls + n * d * q;
      assert n * calls == FOUR_KB * q + n * calls % FOUR_KB;
    }
    Positive(n, gap);
  }

  /** Where `calls` reads of `n` bytes each end. */
  function After(n: nat, calls: nat): nat {
    if calls == 0 then 0 else After(n, calls - 1) + n
  }

  lemma {:induction false} AfterIs(n: nat, calls: nat)
    ensures After(n, calls) == n * calls
  {
    if calls > 0 {
      AfterIs(n, calls - 1);
      assert n * calls == n * (calls - 1) + n;
    }
  }

  /** The next sequential read is in range, and ends within the file's last block. */
  lemma NextRead(img: seq<Byte>, inode: nat, n: nat, calls: nat)
    requires HasInode(img, inode) && 0 < n && FOUR_KB % n == 0
    requires After(n, calls) < Length(img, inode)
    requires forall k | 0 <= k < BlocksFor(Length(img, inode)) :: HasBlock(img, inode, k)
    ensures Readable(img, inode, After(n, calls), n)
    ensures After(n, calls) + n <= FOUR_KB * BlocksFor(Length(img, inode))
  {
    AfterIs(n, calls);
    StaysInBlock(n, calls);
    InLastBlock(After(n, calls), n, Length(img, inode));
    assert HasBlock(img, inode, After(n, calls) / FOUR_KB);
  }

  lemma InLastBlock(pos: nat, n: nat, size: nat)
    requires 0 < n && pos < size && pos % FOUR_KB + n <= FOUR_KB
    ensures pos / FOUR_KB < BlocksFor(size)
    ensures BlocksFor(pos + n) == pos / FOUR_KB + 1
    ensures pos + n <= FOUR_KB * BlocksFor(size)
  {
  }

  /**
    fread does not clamp to the end of the file: it returns what a reader of L bytes should get,
    min(n, L - pos), exactly when the request does not straddle the end.
   */
  lemma ReadClampsIff(img: seq<Byte>, inode: nat, pos: nat, n: nat)
    requires HasInode(img, inode)
    ensures var left := if pos < Length(img, inode) then Length(img, inode) - pos else 0;
            ReadResult(img, inode, pos, n) == (if n < left then n else left) <==> left == 0 || n <= left
  {
  }

  /** An input on which it does not: reading 1024 bytes of a file of three. */
  lemma ShortFileReadsLong(img: seq<Byte>, inode: nat)
    requires HasInode(img, inode) && Length(img, inode) == 3
    ensures ReadResult(img, inode, 0, 1024) == 1024
  {
  }

  /** An open file: fread moves its position by what it returns. */
  class OpenFile {
    const inode: nat
    var filePosition: nat

    constructor (inode: nat)
      ensures this.inode == inode && filePosition == 0
    {
      this.inode := inode;
      filePosition := 0;
    }

    method Fread(img: seq<Byte>, buf: array<Byte>, nbytes: nat) returns (val: nat)
      requires HasInode(img, inode) && nbytes <= buf.Length
      requires filePosition < Length(img, inode) ==> Readable(img, inode, filePosition, nbytes)
      modifies this`filePosition, buf
      ensures val == ReadResult(img, inode, old(filePosition), nbytes)
      ensures filePosition == old(filePosition) + val
      ensures Delivered(img, inode, old(filePosition), buf[..val])
    {
      val := ReadData(img, inode, filePosition, buf, nbytes);
      filePosition := filePosition + val;
    }

    /** One more call on behalf of a reader that has received `out` so far. */
    method ReadMore(img: seq<Byte>, n: nat, buf: array<Byte>, ghost out: seq<Byte>) returns (more: seq<Byte>)
      requires HasInode(img, inode) && n == buf.Length && filePosition == |out|
      requires filePosition < Length(img, inode) ==> Readable(img, inode, filePosition, n)
      requires Delivered(img, inode, 0, out)
      modifies this`filePosition, buf
      ensures |more| == if |out| < Length(img, inode) then n else 0
      ensures filePosition == |out| + |more|
      ensures Delivered(img, inode, 0, out + more)
    {
      var val := Fread(img, buf, n);
      more := buf[..val];
      DeliveredTogether(img, inode, out, more);
    }

    /**
      Main result: reading `n` bytes at a time, `n` a divisor of the block size, until nothing
      comes takes ceil(L/n) successful calls and delivers the file's first L bytes, padded from
      its last block; no block past the last one is needed.
     */
    method ReadToEnd(img: seq<Byte>, n: nat) returns (out: seq<Byte>, calls: nat)
      requires HasInode(img, inode) && 0 < n && FOUR_KB % n == 0 && filePosition == 0
      requires forall k | 0 <= k < BlocksFor(Length(img, inode)) :: HasBlock(img, inode, k)
      modifies this`filePosition
      ensures calls == (Length(img, inode) + n - 1) / n
      ensures |out| == n * calls == filePosition && |out| >= Length(img, inode)
      ensures |out| <= FOUR_KB * BlocksFor(Length(img, inode))
      ensures out == Content(img, inode, BlocksFor(Length(img, inode)))[..|out|]
    {
      var buf := new Byte[n];
      out, calls := [], 0;
      ghost var size := Length(img, inode);
      while true
        invariant filePosition == |out| == After(n, calls) <= FOUR_KB * BlocksFor(size)
        invariant calls == 0 || After(n, calls - 1) < size
        invariant Delivered(img, inode, 0, out)
        decreases size - filePosition
      {
        if filePosition < size {
          NextRead(img, inode, n, calls);
        }
        var more := ReadMore(img, n, buf, out);
        if more == [] {
          break;
        }
        out := out + more;
        calls := calls + 1;
      }
      AfterIs(n, calls);
      AfterIs(n, if calls == 0 then 0 else calls - 1);
      CeilingIs(size, n, calls);
      ContentSlice(img, inode, 0, out, BlocksFor(size));
    }
  }
}
