/**
  The descriptor table of a process: open, close and read on files, directories and the RTC.
  The results over whole runs of several processes are in `DescriptorRuns`.
 */
module Descriptors {
  import opened Bytes
  import opened Layout
  import opened Strings
  import opened FileSystem
  import opened Directory

  const MIN_TASK: nat := 2
  const MAX_TASK: nat := 8
  const TYPE_RTC: nat := 0
  const TYPE_DIR: nat := 1
  const TYPE_FILE: nat := 2
  const NO_INODE: nat := 0xFFFF_FFFF            // -1 in an unsigned field

  /** Which jump table a descriptor points to. */
  datatype Ops = NoOps | StdinOps | StdoutOps | RtcOps | DirOps | FileOps

  datatype Desc = Desc(ops: Ops, inode: nat, filePosition: nat, flags: nat)

  /** A process' descriptors, and the two kernel globals their operations share. */
  datatype Table = Table(descs: seq<Desc>, rtcOpened: bool, dirLocation: nat) {
    /** First descriptor from `from` on that is not in use, or MAX_TASK. */
    function FirstFree(from: nat): (i: nat)
      requires |descs| == MAX_TASK && from <= MAX_TASK
      ensures from <= i <= MAX_TASK
      ensures i < MAX_TASK ==> descs[i].flags == 0
      ensures forall j | from <= j < i :: descs[j].flags != 0
      decreases MAX_TASK - from
    {
      if from == MAX_TASK || descs[from].flags == 0 then from else FirstFree(from + 1)
    }

    ghost predicate Valid() {
      && |descs| == MAX_TASK
      && descs[0].ops == StdinOps && descs[0].flags == 1
      && descs[1].ops == StdoutOps && descs[1].flags == 1
      && forall i | MIN_TASK <= i < MAX_TASK ::
           descs[i].flags <= 1 && (descs[i].flags == 1 ==> descs[i].ops in {RtcOps, DirOps, FileOps})
    }

    predicate InUse(fd: int)
      requires |descs| == MAX_TASK
    {
      0 <= fd < MAX_TASK && descs[fd].flags % 2 == 1
    }
  }

  datatype Option<T> = None | Some(value: T)

  /** The entry a name leads to. */
  function Lookup(img: seq<Byte>, name: seq<Byte>): Option<seq<Byte>>
    requires |img| >= FOUR_KB && DirCount(img) <= MAX_DENTRIES
  {
    var i := FindName(img, name, 0);
    if i < DirCount(img) then Some(Dentry(img, i)) else None
  }

  // ------------------------------------------------------------------ what the calls do

  function Opened(d: Desc, dentryType: nat, inode: nat): Desc {
    if dentryType == TYPE_RTC then Desc(RtcOps, NO_INODE, 0, 1)
    else if dentryType == TYPE_DIR then Desc(DirOps, NO_INODE, 0, 1)
    else if dentryType == TYPE_FILE then Desc(FileOps, inode, 0, 1)
    else Desc(d.ops, d.inode, 0, 1)
  }

  /** sys_open of a name found with the given type and inode. */
  function Open(t: Table, dentryType: nat, inode: nat): (r: Table)
    requires |t.descs| == MAX_TASK
    ensures |r.descs| == MAX_TASK
  {
    var i := t.FirstFree(MIN_TASK);
    if i == MAX_TASK then t
    else
      Table(t.descs[i := Opened(t.descs[i], dentryType, inode)], t.rtcOpened || dentryType == TYPE_RTC, t.dirLocation)
  }

  predicate Closes(t: Table, fd: int)
    requires |t.descs| == MAX_TASK
  {
    t.InUse(fd) && (t.descs[fd].ops in {DirOps, FileOps} || (t.descs[fd].ops == RtcOps && t.rtcOpened))
  }

  function Close(t: Table, fd: int): (r: Table)
    requires |t.descs| == MAX_TASK
    ensures |r.descs| == MAX_TASK
  {
    if !Closes(t, fd) then t
    else Table(t.descs[fd := t.descs[fd].(flags := 0)], t.rtcOpened && t.descs[fd].ops != RtcOps, t.dirLocation)
  }

  /** The loop at the top of sys_halt, from descriptor `fd` on. */
  function ClosedFrom(t: Table, fd: nat): (r: Table)
    requires |t.descs| == MAX_TASK && fd <= MAX_TASK
    ensures |r.descs| == MAX_TASK
    decreases MAX_TASK - fd
  {
    if fd == MAX_TASK then t else ClosedFrom(Close(t, fd), fd + 1)
  }

  predicate IsRtc(t: Table, fd: nat)
    requires |t.descs| == MAX_TASK && fd < MAX_TASK
  {
    t.InUse(fd) && t.descs[fd].ops == RtcOps
  }

  /** Some descriptor in `lo..hi` is in use on the RTC. */
  predicate HasRtc(t: Table, lo: nat, hi: nat)
    requires |t.descs| == MAX_TASK && hi <= MAX_TASK
  {
    exists g | lo <= g < hi :: IsRtc(t, g)
  }

  /** The loop fails to close a descriptor: the RTC is not open, or a lower descriptor has just closed it. */
  predicate StaysOpen(t: Table, lo: nat, fd: nat)
    requires |t.descs| == MAX_TASK && fd < MAX_TASK
  {
    IsRtc(t, fd) && (!t.rtcOpened || HasRtc(t, lo, fd))
  }

  lemma CloseStep(t: Table, fd: nat)
    requires t.Valid() && MIN_TASK <= fd < MAX_TASK
    ensures var u := Close(t, fd);
            && u.Valid() && u.dirLocation == t.dirLocation
            && (u.rtcOpened <==> t.rtcOpened && !IsRtc(t, fd))
            && (u.InUse(fd) <==> IsRtc(t, fd) && !t.rtcOpened)
            && forall g | 0 <= g < MAX_TASK && g != fd :: u.descs[g] == t.descs[g]
  {
  }

  /**
    Main result on the loop: it closes every descriptor but those on the RTC that find the shared flag cleared,
    and leaves the flag set exactly if it was and none of the descriptors was on the RTC.
   */
  lemma {:induction false} ClosedFromIs(t: Table, lo: nat)
    requires t.Valid() && MIN_TASK <= lo <= MAX_TASK
    ensures var r := ClosedFrom(t, lo);
            && r.Valid() && r.dirLocation == t.dirLocation
            && (r.rtcOpened <==> t.rtcOpened && !HasRtc(t, lo, MAX_TASK))
            && (forall fd | 0 <= fd < lo :: r.descs[fd] == t.descs[fd])
            && forall fd | lo <= fd < MAX_TASK :: r.InUse(fd) <==> StaysOpen(t, lo, fd)
    decreases MAX_TASK - lo
  {
    if lo < MAX_TASK {
      var u := Close(t, lo);
      CloseStep(t, lo);
      ClosedFromIs(u, lo + 1);
      assert forall g | lo < g < MAX_TASK :: IsRtc(u, g) == IsRtc(t, g);
      forall fd | lo <= fd < MAX_TASK
        ensures ClosedFrom(t, lo).InUse(fd) <==> StaysOpen(t, lo, fd)
      {
        RtcSplit(t, u, lo, fd);
      }
      RtcSplit(t, u, lo, MAX_TASK);
    }
  }

  lemma RtcSplit(t: Table, u: Table, lo: nat, hi: nat)
    requires |t.descs| == |u.descs| == MAX_TASK && lo <= hi <= MAX_TASK && lo < MAX_TASK
    requires forall g | lo < g < MAX_TASK :: IsRtc(u, g) == IsRtc(t, g)
    ensures lo < hi ==> (HasRtc(t, lo, hi) <==> IsRtc(t, lo) || HasRtc(u, lo + 1, hi))
    ensures lo == hi ==> !HasRtc(t, lo, hi)
  {
    if HasRtc(t, lo, hi) && !IsRtc(t, lo) {
      var g :| lo <= g < hi && IsRtc(t, g);
      assert IsRtc(u, g);
    }
    if lo < hi && HasRtc(u, lo + 1, hi) {
      var g :| lo + 1 <= g < hi && IsRtc(u, g);
      assert IsRtc(t, g);
    }
  }

  /** An input on which the loop leaves a descriptor open: two of them on the RTC. */
  lemma SecondRtcStaysOpen(t: Table, fd: nat, gd: nat)
    requires t.Valid() && MIN_TASK <= fd < gd < MAX_TASK && IsRtc(t, fd) && IsRtc(t, gd)
    ensures ClosedFrom(t, MIN_TASK).InUse(gd) && !ClosedFrom(t, MIN_TASK).rtcOpened
  {
    ClosedFromIs(t, MIN_TASK);
  }

  /** sys_read of `nbytes` bytes, for descriptors whose read does not wait for a device. */
  function Read(t: Table, img: seq<Byte>, fd: int, nbytes: nat): (r: Table)
    requires |t.descs| == MAX_TASK && ValidDirectory(img) && ReadableFd(t, img, fd)
    ensures |r.descs| == MAX_TASK
  {
    if !t.InUse(fd) then t
    else match t.descs[fd].ops
      case FileOps =>
        var d := t.descs[fd];
        var count := ReadResult(img, d.inode, d.filePosition, nbytes);
        t.(descs := t.descs[fd := d.(filePosition := d.filePosition + count)])
      case DirOps => t.(dirLocation := NextLocation(img, t.dirLocation))
      case _ => t
  }

  /** The descriptor's file, if it has one, is in the image. */
  predicate ReadableFd(t: Table, img: seq<Byte>, fd: int)
    requires |t.descs| == MAX_TASK
  {
    t.InUse(fd) && t.descs[fd].ops == FileOps ==> HasInode(img, t.descs[fd].inode)
  }

  // ------------------------------------------------------------------ the system calls

  /** Whether the RTC is open; like the listing position it is one for all processes. */
  class Rtc {
    var isOpen: bool
  }

  class FileTable {
    var fileDesc: seq<Desc>
    const listing: Listing
    const rtc: Rtc

    ghost function View(): Table
      reads this, listing, rtc
    {
      Table(fileDesc, rtc.isOpen, listing.dirLocation)
    }

    /** The table execute gives a new process. */
    constructor (listing: Listing, rtc: Rtc)
      ensures View().Valid() && this.listing == listing && this.rtc == rtc
      ensures forall i | MIN_TASK <= i < MAX_TASK :: fileDesc[i].flags == 0
    {
      var empty := Desc(NoOps, 0, 0, 0);
      fileDesc := [Desc(StdinOps, 0, 0, 1), Desc(StdoutOps, 0, 0, 1), empty, empty, empty, empty, empty, empty];
      this.listing := listing;
      this.rtc := rtc;
    }

    method SysOpen(img: seq<Byte>, filename: seq<Byte>) returns (r: int)
      requires View().Valid() && ValidDirectory(img) && NUL in filename
      modifies this, rtc
      ensures match Lookup(img, CString(filename))
              case None => r == -1 && View() == old(View())
              case Some(d) =>
                && View() == Open(old(View()), TypeOf(d), InodeOf(d))
                && r == (var i := old(View()).FirstFree(MIN_TASK); if i == MAX_TASK then -1 else i)
    {
      var dentry := new Byte[DENTRY_SIZE];
      var found := ReadDentryByName(img, filename, dentry);
      if !found {
        return -1;
      }
      r := AddDescriptor(TypeOf(dentry[..]), InodeOf(dentry[..]));
    }

    /** The part of sys_open after the name is found. */
    method AddDescriptor(fileType: nat, inode: nat) returns (r: int)
      requires |fileDesc| == MAX_TASK
      modifies this, rtc
      ensures View() == Open(old(View()), fileType, inode)
      ensures r == (var i := old(View()).FirstFree(MIN_TASK); if i == MAX_TASK then -1 else i)
    {
      var i := MIN_TASK;
      while i < MAX_TASK
        invariant MIN_TASK <= i <= MAX_TASK && View() == old(View())
        invariant View().FirstFree(MIN_TASK) == View().FirstFree(i)
      {
        if fileDesc[i].flags == 0 {
          break;
        }
        i := i + 1;
      }
      if i == MAX_TASK {
        return -1;
      }
      var d := fileDesc[i].(flags := 1, filePosition := 0);
      if fileType == TYPE_RTC {
        rtc.isOpen := true;
        d := d.(inode := NO_INODE, ops := RtcOps);
      } else if fileType == TYPE_DIR {
        d := d.(inode := NO_INODE, ops := DirOps);
      } else if fileType == TYPE_FILE {
        d := d.(inode := inode, ops := FileOps);
      }
      fileDesc := fileDesc[i := d];
      return i;
    }

    method SysClose(fd: int) returns (r: int)
      requires View().Valid()
      modifies this, rtc
      ensures View() == Close(old(View()), fd)
      ensures r == if Closes(old(View()), fd) then 0 else -1
    {
      if fd < 0 || fd >= MAX_TASK {
        return -1;
      }
      if fileDesc[fd].flags % 2 == 0 {
        return -1;
      }
      match fileDesc[fd].ops {
        case FileOps =>
        case DirOps =>
        case RtcOps =>
          if !rtc.isOpen {
            return -1;
          }
          rtc.isOpen := false;
        case _ => return -1;
      }
      fileDesc := fileDesc[fd := fileDesc[fd].(flags := 0)];
      return 0;
    }

    /** The loop at the top of sys_halt. */
    method CloseAll()
      requires View().Valid()
      modifies this, rtc
      ensures View() == ClosedFrom(old(View()), MIN_TASK) && View().Valid()
    {
      ghost var start := View();
      for fd := MIN_TASK to MAX_TASK
        invariant View().Valid() && ClosedFrom(View(), fd) == ClosedFrom(start, MIN_TASK)
      {
        CloseStep(View(), fd);
        var _ := SysClose(fd);
      }
    }

    /** fread on the descriptor's file. */
    method Fread(img: seq<Byte>, fd: nat, buf: array<Byte>, nbytes: nat) returns (val: nat)
      requires fd < |fileDesc| && HasInode(img, fileDesc[fd].inode) && nbytes <= buf.Length
      requires fileDesc[fd].filePosition < Length(img, fileDesc[fd].inode) ==>
                 Readable(img, fileDesc[fd].inode, fileDesc[fd].filePosition, nbytes)
      modifies this`fileDesc, buf
      ensures val <= buf.Length
      ensures var d := old(fileDesc)[fd];
              && val == ReadResult(img, d.inode, d.filePosition, nbytes)
              && fileDesc == old(fileDesc)[fd := d.(filePosition := d.filePosition + val)]
              && Delivered(img, d.inode, d.filePosition, buf[..val])
    {
      var d := fileDesc[fd];
      val := ReadData(img, d.inode, d.filePosition, buf, nbytes);
      fileDesc := fileDesc[fd := d.(filePosition := d.filePosition + val)];
    }

    /** sys_read, except on stdin and the RTC, whose reads wait for an interrupt. */
    method SysRead(img: seq<Byte>, fd: int, buf: array<Byte>, nbytes: nat) returns (r: int)
      requires View().Valid() && ValidDirectory(img) && ReadableFd(View(), img, fd)
      requires View().InUse(fd) ==> fileDesc[fd].ops !in {StdinOps, RtcOps}
      requires View().InUse(fd) && fileDesc[fd].ops == DirOps ==> buf.Length >= 33
      requires View().InUse(fd) && fileDesc[fd].ops == FileOps ==>
                 nbytes <= buf.Length &&
                 (fileDesc[fd].filePosition < Length(img, fileDesc[fd].inode) ==>
                    Readable(img, fileDesc[fd].inode, fileDesc[fd].filePosition, nbytes))
      modifies this, listing, buf
      ensures View() == Read(old(View()), img, fd, nbytes)
      ensures var t := old(View());
              if !t.InUse(fd) || t.descs[fd].ops == StdoutOps then r == -1
              else if t.descs[fd].ops == DirOps then 0 <= r <= 32 && buf[..r] == Listed(img, t.dirLocation)
              else var d := t.descs[fd];
                   && 0 <= r <= buf.Length
                   && r == ReadResult(img, d.inode, d.filePosition, nbytes)
                   && Delivered(img, d.inode, d.filePosition, buf[..r])
    {
      if fd < 0 || fd >= MAX_TASK {
        return -1;
      }
      if fileDesc[fd].flags % 2 == 0 {
        return -1;
      }
      match fileDesc[fd].ops {
        case FileOps =>
          r := Fread(img, fd, buf, nbytes);
        case DirOps =>
          r := listing.DirRead(img, buf);
        case _ =>
          return -1;
      }
    }
  }
}
