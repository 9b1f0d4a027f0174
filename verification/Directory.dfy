/**
  Directory entries: lookup by index and by name, and the directory listing.  A name fills
  32 bytes with no NUL when it is as long as it can be, and the string routines then run on
  into the file type behind it; the results are nevertheless exact.
 */
module Directory {
  import opened Arithmetic
  import opened Bytes
  import opened Layout
  import opened Strings
  import opened FileSystem

  const MAX_NAME_LEN: nat := 32
  const DENTRY_SIZE: nat := 64
  const MAX_DENTRIES: nat := 63

  // Layout of a directory entry: 32 bytes of name, then the type, then the inode number.

  function TypeOf(dentry: seq<Byte>): nat
    requires |dentry| == DENTRY_SIZE
  {
    Word(dentry, 32)
  }

  function InodeOf(dentry: seq<Byte>): nat
    requires |dentry| == DENTRY_SIZE
  {
    Word(dentry, 36)
  }

  /** The name of an entry: up to its first NUL, or all 32 bytes. */
  function NameOf(dentry: seq<Byte>): (name: seq<Byte>)
    requires |dentry| == DENTRY_SIZE
    ensures |name| <= MAX_NAME_LEN && NUL !in name
  {
    CString(dentry[..MAX_NAME_LEN])
  }

  /** File types are 0, 1 and 2, so a string that runs past the name ends within the type. */
  predicate ValidDentry(dentry: seq<Byte>) {
    |dentry| == DENTRY_SIZE && dentry[33] == dentry[34] == dentry[35] == NUL
  }

  ghost predicate ValidDirectory(img: seq<Byte>) {
    && |img| >= FOUR_KB
    && DirCount(img) <= MAX_DENTRIES
    && forall i | 0 <= i < DirCount(img) :: ValidDentry(Dentry(img, i))
  }

  /** Entry `i` of the boot block. */
  function Dentry(img: seq<Byte>, i: nat): (d: seq<Byte>)
    requires |img| >= FOUR_KB && i < MAX_DENTRIES
    ensures |d| == DENTRY_SIZE
  {
    img[DENTRY_SIZE * (i + 1)..DENTRY_SIZE * (i + 1) + DENTRY_SIZE]
  }

  function Name(img: seq<Byte>, i: nat): seq<Byte>
    requires |img| >= FOUR_KB && i < MAX_DENTRIES
  {
    NameOf(Dentry(img, i))
  }

  /** `dentry` describes the same file as `original`; only name, type and inode count. */
  ghost predicate Describes(dentry: seq<Byte>, original: seq<Byte>)
    requires |dentry| == |original| == DENTRY_SIZE
  {
    NameOf(dentry) == NameOf(original) && TypeOf(dentry) == TypeOf(original) && InodeOf(dentry) == InodeOf(original)
  }

  // ------------------------------------------------------------------ names as C strings

  /** The string at an entry is its name, possibly followed by one byte of the type. */
  lemma StringAtDentry(d: seq<Byte>)
    requires ValidDentry(d)
    ensures NUL in d && CLen(d) <= 33
    ensures Cut(d, MAX_NAME_LEN) == NameOf(d)
    ensures CLen(d) <= MAX_NAME_LEN ==> |NameOf(d)| == CLen(d)
    ensures CLen(d) > MAX_NAME_LEN ==> NameOf(d) == d[..MAX_NAME_LEN]
  {
  }

  /**
    Comparing an entry's name with a query over the longer of their lengths is comparing them
    for equality.
   */
  lemma LongerComparison(d: seq<Byte>, query: seq<Byte>, n: nat)
    requires ValidDentry(d) && NUL in query && CLen(query) <= MAX_NAME_LEN
    requires n == if |NameOf(d)| > CLen(query) then |NameOf(d)| else CLen(query)
    ensures Cut(d, n) == Cut(query, n) <==> NameOf(d) == CString(query)
  {
  }

  // ------------------------------------------------------------------ lookups

  /** read_dentry_by_index into the 64-byte structure `dentry`. */
  method ReadDentryByIndex(img: seq<Byte>, index: nat, dentry: array<Byte>) returns (ok: bool)
    requires ValidDirectory(img) && dentry.Length == DENTRY_SIZE
    modifies dentry
    ensures ok <==> index < DirCount(img)
    ensures ok ==> Describes(dentry[..], Dentry(img, index)) && ValidDentry(dentry[..])
    ensures !ok ==> dentry[..] == old(dentry[..])
  {
    if index >= DirCount(img) {
      return false;
    }
    var entry := Dentry(img, index);
    StringAtDentry(entry);
    dentry[0] := entry[0];
    Strcpy(dentry, 0, entry);
    SetWords(dentry, entry);
    CopiedName(dentry[..], entry);
    return true;
  }

  /** Stores the type and the inode number, over whatever the name left there. */
  method SetWords(dentry: array<Byte>, entry: seq<Byte>)
    requires dentry.Length == |entry| == DENTRY_SIZE
    modifies dentry
    ensures forall k | 32 <= k < 40 :: dentry[k] == entry[k]
    ensures forall k | 0 <= k < 32 || 40 <= k < DENTRY_SIZE :: dentry[k] == old(dentry[k])
  {
    for i := 32 to 40
      invariant forall k | 32 <= k < i :: dentry[k] == entry[k]
      invariant forall k | 0 <= k < 32 || i <= k < DENTRY_SIZE :: dentry[k] == old(dentry[k])
    {
      dentry[i] := entry[i];
    }
  }

  lemma CopiedName(d: seq<Byte>, entry: seq<Byte>)
    requires |d| == DENTRY_SIZE && ValidDentry(entry)
    requires forall k | 0 <= k <= CLen(entry) && k < MAX_NAME_LEN :: d[k] == entry[k]
    requires forall k | 32 <= k < 40 :: d[k] == entry[k]
    ensures Describes(d, entry) && ValidDentry(d)
  {
  }

  /** The first entry from `from` on with the given name. */
  function FindName(img: seq<Byte>, name: seq<Byte>, from: nat): (i: nat)
    requires |img| >= FOUR_KB && from <= DirCount(img) <= MAX_DENTRIES
    ensures from <= i <= DirCount(img)
    ensures i < DirCount(img) ==> Name(img, i) == name
    ensures forall j | from <= j < i :: Name(img, j) != name
    decreases DirCount(img) - from
  {
    if from == DirCount(img) || Name(img, from) == name then from else FindName(img, name, from + 1)
  }

  /** One comparison of the lookup loop. */
  method Matches(entry: seq<Byte>, fname: seq<Byte>, strLen: nat) returns (same: bool)
    requires ValidDentry(entry) && NUL in fname && strLen == CLen(fname) <= MAX_NAME_LEN
    ensures same <==> NameOf(entry) == CString(fname)
  {
    StringAtDentry(entry);
    var entryLen := Strlen(entry);
    if entryLen > MAX_NAME_LEN {
      entryLen := MAX_NAME_LEN;
    }
    LongerComparison(entry, fname, if entryLen > strLen then entryLen else strLen);
    var r: int;
    if entryLen > strLen {
      r := Strncmp(entry, fname, entryLen);
    } else {
      r := Strncmp(entry, fname, strLen);
    }
    return r == 0;
  }

  /**
    Main result: the lookup succeeds exactly when some entry has the queried name, and then
    delivers the name, type and inode of the first such entry.
   */
  method ReadDentryByName(img: seq<Byte>, fname: seq<Byte>, dentry: array<Byte>) returns (ok: bool)
    requires ValidDirectory(img) && NUL in fname && dentry.Length == DENTRY_SIZE
    modifies dentry
    ensures ok <==> exists i :: 0 <= i < DirCount(img) && Name(img, i) == CString(fname)
    ensures ok ==> var i := FindName(img, CString(fname), 0);
                   i < DirCount(img) && Describes(dentry[..], Dentry(img, i)) && ValidDentry(dentry[..])
    ensures !ok ==> dentry[..] == old(dentry[..])
  {
    var strLen := Strlen(fname);
    if strLen > MAX_NAME_LEN {
      return false;
    }
    var i := 0;
    while i < DirCount(img)
      invariant i <= DirCount(img)
      invariant forall j | 0 <= j < i :: Name(img, j) != CString(fname)
      invariant FindName(img, CString(fname), 0) == FindName(img, CString(fname), i)
      invariant dentry[..] == old(dentry[..])
    {
      var same := Matches(Dentry(img, i), fname, strLen);
      if same {
        ok := ReadDentryByIndex(img, i, dentry);
        return true;
      }
      i := i + 1;
    }
    return false;
  }

  // ------------------------------------------------------------------ listing

  /** What a listing call at position `loc` yields: the entry's name, or nothing at the end. */
  function Listed(img: seq<Byte>, loc: nat): seq<Byte>
    requires ValidDirectory(img)
  {
    if loc < DirCount(img) then Name(img, loc) else []
  }

  /** The position after it: the end wraps to the start. */
  function NextLocation(img: seq<Byte>, loc: nat): nat
    requires ValidDirectory(img)
  {
    if loc < DirCount(img) then loc + 1 else 0
  }

  /** The kernel's one listing position, shared by all callers. */
  class Listing {
    var dirLocation: nat

    constructor ()
      ensures dirLocation == 0
    {
      dirLocation := 0;
    }

    /** dir_read: writes 33 bytes whatever the caller asked for. */
    method DirRead(img: seq<Byte>, buf: array<Byte>) returns (len: nat)
      requires ValidDirectory(img) && buf.Length >= 33
      modifies this, buf
      ensures len <= MAX_NAME_LEN && buf[..len] == Listed(img, old(dirLocation))
      ensures dirLocation == NextLocation(img, old(dirLocation))
      ensures old(dirLocation) < DirCount(img) ==>
                buf[..len] == Name(img, old(dirLocation)) && dirLocation == old(dirLocation) + 1
      ensures old(dirLocation) >= DirCount(img) ==> len == 0 && dirLocation == 0
      ensures old(dirLocation) < DirCount(img) ==> forall k | len <= k < 33 :: buf[k] == NUL
      ensures old(dirLocation) >= DirCount(img) ==> buf[..] == old(buf[..])
    {
      var dentry := new Byte[DENTRY_SIZE];
      var ok := ReadDentryByIndex(img, dirLocation, dentry);
      if ok {
        len := CopyName(dentry[..], buf);
        dirLocation := dirLocation + 1;
      } else {
        dirLocation := 0;
        len := 0;
      }
    }

    /** Main result: the k-th of a series of calls yields entry k mod (count + 1), the last one nothing. */
    method ListAll(img: seq<Byte>, calls: nat) returns (names: seq<seq<Byte>>)
      requires ValidDirectory(img) && dirLocation == 0
      modifies this
      ensures |names| == calls
      ensures forall k | 0 <= k < calls ::
                var m := k % (DirCount(img) + 1); names[k] == if m < DirCount(img) then Name(img, m) else []
    {
      var buf := new Byte[33];
      names := [];
      for i := 0 to calls
        invariant |names| == i
        invariant dirLocation == i % (DirCount(img) + 1)
        invariant forall k | 0 <= k < i :: names[k] == Listed(img, k % (DirCount(img) + 1))
      {
        var len := DirRead(img, buf);
        names := names + [buf[..len]];
        CycleStep(i, DirCount(img));
      }
    }
  }

  /** The part of dir_read that hands an entry's name to the caller. */
  method CopyName(dentry: seq<Byte>, buf: array<Byte>) returns (len: nat)
    requires ValidDentry(dentry) && buf.Length >= 33
    modifies buf
    ensures len <= MAX_NAME_LEN && buf[..len] == NameOf(dentry)
    ensures forall k | len <= k < 33 :: buf[k] == NUL
  {
    for i := 0 to 33
      invariant forall k | 0 <= k < i :: buf[k] == NUL
    {
      buf[i] := NUL;
    }
    StringAtDentry(dentry);
    len := Strlen(dentry);
    if len > 32 {
      len := 32;
    }
    Strncpy(buf, dentry, len);
    PaddedToLength(dentry, len);
    assert buf[..len] == Padded(dentry, len);
  }

  lemma PaddedToLength(d: seq<Byte>, len: nat)
    requires ValidDentry(d)
    requires len == if CLen(d) > MAX_NAME_LEN then MAX_NAME_LEN else CLen(d)
    ensures Padded(d, len) == NameOf(d)
  {
  }
}
