/**
  The file system image put together from its parts: what the arithmetic on addresses in
  `FileSystem` and `Directory` finds is stated here on the bytes of the boot block, the inodes
  and the data blocks themselves.
 */
module Image {
  import opened Bytes
  import opened Strings
  import opened FileSystem
  import opened Directory

  /** The four bytes of a 32-bit number, least significant first. */
  function WordBytes(v: nat): (b: seq<Byte>)
    requires v < 0x1_0000_0000
    ensures |b| == 4
  {
    [v % 256, v / 256 % 256, v / 256 / 256 % 256, v / 256 / 256 / 256]
  }

  lemma BytesAddUp(v: nat)
    requires v < 0x1_0000_0000
    ensures var w := WordBytes(v);
            w[0] as int + 0x100 * (w[1] as int) + 0x1_0000 * (w[2] as int) + 0x100_0000 * (w[3] as int) == v
  {
    var p := v / 256;
    var q := p / 256;
    assert v == 256 * p + v % 256 && p == 256 * q + p % 256 && q == 256 * (q / 256) + q % 256;
  }

  lemma WordReadsBack(m: seq<Byte>, a: nat, v: nat)
    requires v < 0x1_0000_0000 && a + 4 <= |m| && m[a..a + 4] == WordBytes(v)
    ensures Word(m, a) == v
  {
    var w := m[a..a + 4];
    assert m[a] == w[0] && m[a + 1] == w[1] && m[a + 2] == w[2] && m[a + 3] == w[3];
    BytesAddUp(v);
  }

  /** One boot block, the inodes, the data blocks. */
  datatype Disk = Disk(boot: seq<Byte>, inodes: seq<Byte>, data: seq<Byte>) {
    function Image(): seq<Byte> {
      boot + inodes + data
    }

    /** The boot block counts `dirs` directory entries and `n` inodes of a block each. */
    ghost predicate Counts(dirs: nat, n: nat) {
      && dirs <= 63 && n < 0x1_0000_0000
      && |boot| == 4096 && |inodes| == 4096 * n
      && boot[0..4] == WordBytes(dirs) && boot[4..8] == WordBytes(n)
    }

    /** Inode `f` says: `size` bytes, in the data blocks with these numbers, all of them on the disk. */
    ghost predicate HoldsFile(f: nat, size: nat, blocks: seq<nat>) {
      && 4096 * f + 4096 <= |inodes| && size < 0x1_0000_0000 && |blocks| <= 1023
      && inodes[4096 * f..4096 * f + 4] == WordBytes(size)
      && forall k | 0 <= k < |blocks| :: HoldsBlock(f, k, blocks[k])
    }

    ghost predicate HoldsBlock(f: nat, k: nat, b: nat)
      requires 4096 * f + 4096 <= |inodes| && k < 1023
    {
      && b < 0x1_0000_0000 && 4096 * b + 4096 <= |data|
      && inodes[4096 * f + 4 * k + 4..4096 * f + 4 * k + 8] == WordBytes(b)
    }

    /** Entry `i` of the boot block: 32 bytes of name, filled up with NULs, then type and inode number. */
    ghost predicate HoldsEntry(i: nat, name: seq<Byte>, kind: nat, inode: nat) {
      && i < 63 && |boot| == 4096 && |name| <= 32 && NUL !in name
      && kind < 0x1_0000_0000 && inode < 0x1_0000_0000
      && boot[64 * i + 64..64 * i + 96] == name + seq(32 - |name|, _ => 0)
      && boot[64 * i + 96..64 * i + 100] == WordBytes(kind)
      && boot[64 * i + 100..64 * i + 104] == WordBytes(inode)
    }
  }

  /** The data blocks with the given numbers, one after the other. */
  function FileBytes(data: seq<Byte>, blocks: seq<nat>): (s: seq<Byte>)
    requires forall k | 0 <= k < |blocks| :: 4096 * blocks[k] + 4096 <= |data|
    ensures |s| == 4096 * |blocks|
  {
    if blocks == [] then []
    else
      var b := blocks[|blocks| - 1];
      FileBytes(data, blocks[..|blocks| - 1]) + data[4096 * b..4096 * b + 4096]
  }

  // ------------------------------------------------------------------ files

  lemma CountsRead(d: Disk, dirs: nat, n: nat)
    requires d.Counts(dirs, n)
    ensures |d.Image()| >= 4096 && DirCount(d.Image()) == dirs && InodeCount(d.Image()) == n
  {
    assert d.Image()[0..4] == d.boot[0..4] && d.Image()[4..8] == d.boot[4..8];
    WordReadsBack(d.Image(), 0, dirs);
    WordReadsBack(d.Image(), 4, n);
  }

  lemma InodeBytes(d: Disk, a: nat, len: nat)
    requires |d.boot| == 4096 && a + len <= |d.inodes|
    ensures d.Image()[a + 4096..a + 4096 + len] == d.inodes[a..a + len]
  {
  }

  lemma DataBytes(d: Disk, n: nat, a: nat, len: nat)
    requires |d.boot| == 4096 && |d.inodes| == 4096 * n && a + len <= |d.data|
    ensures d.Image()[4096 * n + 4096 + a..4096 * n + 4096 + a + len] == d.data[a..a + len]
  {
  }

  /** An inode is found behind the boot block, and its length in it. */
  lemma InodeRead(d: Disk, dirs: nat, n: nat, f: nat, size: nat, blocks: seq<nat>)
    requires d.Counts(dirs, n) && d.HoldsFile(f, size, blocks)
    ensures HasInode(d.Image(), f) && Length(d.Image(), f) == size
  {
    var a := 4096 * f;
    InodeBytes(d, a, 4);
    WordReadsBack(d.Image(), a + 4096, size);
  }

  lemma BlockAddress(d: Disk, dirs: nat, n: nat, f: nat, size: nat, blocks: seq<nat>, k: nat)
    requires d.Counts(dirs, n) && d.HoldsFile(f, size, blocks) && k < |blocks|
    ensures HasInode(d.Image(), f) && BlockAt(d.Image(), f, k) == 4096 * n + 4096 + 4096 * blocks[k]
    ensures 4096 * blocks[k] + 4096 <= |d.data|
  {
    var a, b := 4096 * f + 4 * k + 4, blocks[k];
    CountsRead(d, dirs, n);
    assert d.HoldsBlock(f, k, b);
    InodeBytes(d, a, 4);
    WordReadsBack(d.Image(), a + 4096, b);
  }

  /** A data block is found behind the boot block and all inodes, by its number in the inode. */
  lemma BlockRead(d: Disk, dirs: nat, n: nat, f: nat, size: nat, blocks: seq<nat>, k: nat)
    requires d.Counts(dirs, n) && d.HoldsFile(f, size, blocks) && k < |blocks|
    ensures HasInode(d.Image(), f) && HasBlock(d.Image(), f, k)
    ensures Block(d.Image(), f, k) == d.data[4096 * blocks[k]..4096 * blocks[k] + 4096]
  {
    BlockAddress(d, dirs, n, f, size, blocks, k);
    DataBytes(d, n, 4096 * blocks[k], 4096);
    assert |d.Image()| == 4096 + 4096 * n + |d.data|;
  }

  lemma BlocksOnDisk(d: Disk, f: nat, size: nat, blocks: seq<nat>)
    requires d.HoldsFile(f, size, blocks)
    ensures forall k | 0 <= k < |blocks| :: 4096 * blocks[k] + 4096 <= |d.data|
  {
    assert forall k | 0 <= k < |blocks| :: d.HoldsBlock(f, k, blocks[k]);
  }

  lemma OneMoreBlock(data: seq<Byte>, blocks: seq<nat>, m: nat)
    requires (forall k | 0 <= k < |blocks| :: 4096 * blocks[k] + 4096 <= |data|) && m < |blocks|
    ensures FileBytes(data, blocks[..m + 1]) ==
            FileBytes(data, blocks[..m]) + data[4096 * blocks[m]..4096 * blocks[m] + 4096]
  {
    assert blocks[..m + 1][..m] == blocks[..m];
  }

  /** Main result: the blocks a file's inode leads to are the data blocks it numbers, in that order. */
  lemma {:induction false} ContentIsFile(d: Disk, dirs: nat, n: nat, f: nat, size: nat, blocks: seq<nat>, m: nat)
    requires d.Counts(dirs, n) && d.HoldsFile(f, size, blocks) && m <= |blocks|
    ensures forall k | 0 <= k < |blocks| :: 4096 * blocks[k] + 4096 <= |d.data|
    ensures HasInode(d.Image(), f) && Content(d.Image(), f, m) == FileBytes(d.data, blocks[..m])
  {
    InodeRead(d, dirs, n, f, size, blocks);
    BlocksOnDisk(d, f, size, blocks);
    if m > 0 {
      ContentIsFile(d, dirs, n, f, size, blocks, m - 1);
      BlockRead(d, dirs, n, f, size, blocks, m - 1);
      OneMoreBlock(d.data, blocks, m - 1);
    }
  }

  lemma ReadableFile(d: Disk, dirs: nat, n: nat, f: nat, size: nat, blocks: seq<nat>, offset: nat, length: nat)
    requires d.Counts(dirs, n) && d.HoldsFile(f, size, blocks)
    requires offset < 4096 * |blocks| && offset + length <= 4096 * |blocks|
    ensures HasInode(d.Image(), f) && Readable(d.Image(), f, offset, length)
  {
    InodeRead(d, dirs, n, f, size, blocks);
    forall k: nat | offset / 4096 <= k < BlocksFor(offset + length)
      ensures HasBlock(d.Image(), f, k)
    {
      BlockRead(d, dirs, n, f, size, blocks, k);
    }
  }

  /** Main result: read_data on a disk delivers the bytes of the file's own data blocks. */
  method ReadSlice(d: Disk, ghost dirs: nat, ghost n: nat, f: nat, ghost size: nat, ghost blocks: seq<nat>,
                   offset: nat, buf: array<Byte>, length: nat)
    returns (r: nat)
    requires d.Counts(dirs, n) && d.HoldsFile(f, size, blocks)
    requires size <= 4096 * |blocks| && offset + length <= 4096 * |blocks| && length <= buf.Length
    modifies buf
    ensures forall k | 0 <= k < |blocks| :: 4096 * blocks[k] + 4096 <= |d.data|
    ensures r == if offset < size then length else 0
    ensures r > 0 ==> buf[..r] == FileBytes(d.data, blocks)[offset..offset + length]
    ensures forall k | r <= k < buf.Length :: buf[k] == old(buf[k])
  {
    InodeRead(d, dirs, n, f, size, blocks);
    if offset < size {
      ReadableFile(d, dirs, n, f, size, blocks, offset, length);
    }
    r := ReadData(d.Image(), f, offset, buf, length);
    ContentIsFile(d, dirs, n, f, size, blocks, |blocks|);
    assert blocks[..|blocks|] == blocks;
    if r > 0 {
      ContentSlice(d.Image(), f, offset, buf[..r], |blocks|);
    }
  }

  /** Main result: reading a file to its end delivers its `size` bytes from its own data blocks. */
  method ReadFile(d: Disk, ghost dirs: nat, ghost n: nat, f: nat, size: nat, ghost blocks: seq<nat>, chunk: nat)
    returns (out: seq<Byte>)
    requires d.Counts(dirs, n) && d.HoldsFile(f, size, blocks)
    requires size <= 4096 * |blocks| < size + 4096 && 0 < chunk && 4096 % chunk == 0
    ensures forall k | 0 <= k < |blocks| :: 4096 * blocks[k] + 4096 <= |d.data|
    ensures |out| == size && out == FileBytes(d.data, blocks)[..size]
  {
    InodeRead(d, dirs, n, f, size, blocks);
    forall k: nat | k < BlocksFor(size)
      ensures HasBlock(d.Image(), f, k)
    {
      BlockRead(d, dirs, n, f, size, blocks, k);
    }
    var file := new OpenFile(f);
    var all, calls := file.ReadToEnd(d.Image(), chunk);
    ContentIsFile(d, dirs, n, f, size, blocks, |blocks|);
    assert blocks[..|blocks|] == blocks;
    assert BlocksFor(size) == |blocks|;
    out := all[..size];
  }

  // ------------------------------------------------------------------ entries

  /** Part of an entry is a part of the boot block. */
  lemma EntryBytes(d: Disk, i: nat, lo: nat, hi: nat)
    requires |d.boot| == 4096 && i < 63 && lo <= hi <= 64
    ensures Dentry(d.Image(), i)[lo..hi] == d.boot[64 * i + 64 + lo..64 * i + 64 + hi]
  {
    var a := 64 * i + 64;
    SliceOfSlice(d.Image(), a, 64, lo, hi);
    BootBytes(d, a + lo, a + hi);
  }

  lemma BootBytes(d: Disk, lo: nat, hi: nat)
    requires lo <= hi <= |d.boot|
    ensures d.Image()[lo..hi] == d.boot[lo..hi]
  {
  }

  lemma SliceOfSlice(s: seq<Byte>, a: nat, n: nat, lo: nat, hi: nat)
    requires a + n <= |s| && lo <= hi <= n
    ensures s[a..a + n][lo..hi] == s[a + lo..a + hi]
  {
    var x, y := s[a..a + n][lo..hi], s[a + lo..a + hi];
    assert |x| == |y| == hi - lo;
    forall k | 0 <= k < hi - lo
      ensures x[k] == y[k]
    {
      assert x[k] == s[a..a + n][lo + k] == s[a + (lo + k)];
    }
  }

  lemma NamePadded(field: seq<Byte>, name: seq<Byte>)
    requires |name| <= 32 && NUL !in name && field == name + seq(32 - |name|, _ => 0)
    ensures CString(field) == name
  {
    CLenIs(field, |name|);
    assert field[..|name|] == name;
  }

  /** Main result: an entry's name, type and inode number are the bytes of the boot block that say so. */
  lemma EntryRead(d: Disk, i: nat, name: seq<Byte>, kind: nat, inode: nat)
    requires d.HoldsEntry(i, name, kind, inode)
    ensures |d.Image()| >= 4096 && Name(d.Image(), i) == name
    ensures TypeOf(Dentry(d.Image(), i)) == kind && InodeOf(Dentry(d.Image(), i)) == inode
  {
    var e := Dentry(d.Image(), i);
    EntryBytes(d, i, 0, 32);
    EntryBytes(d, i, 32, 36);
    EntryBytes(d, i, 36, 40);
    WordReadsBack(e, 32, kind);
    WordReadsBack(e, 36, inode);
    assert e[..32] == e[0..32];
    NamePadded(e[..32], name);
  }
}
