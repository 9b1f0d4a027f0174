/**
  Whole runs of open, close and read by several processes.  Each process has its own descriptors;
  the listing position and the RTC's open flag are shared by all.
 */
module DescriptorRuns {
  import opened Arithmetic
  import opened Bytes
  import opened Strings
  import opened FileSystem
  import opened Directory
  import opened Descriptors

  /** Calls name the process that makes them. */
  datatype Call =
    | OpenCall(pid: nat, name: seq<Byte>)
    | CloseCall(pid: nat, fd: int)
    | ReadCall(pid: nat, fd: int, nbytes: nat)

  datatype System = System(tables: seq<seq<Desc>>, rtcOpened: bool, dirLocation: nat) {
    /** A process' descriptors together with what is shared. */
    function TableOf(p: nat): Table
      requires p < |tables|
    {
      Table(tables[p], rtcOpened, dirLocation)
    }

    function With(p: nat, t: Table): System
      requires p < |tables|
    {
      System(tables[p := t.descs], t.rtcOpened, t.dirLocation)
    }
  }

  /** Every file the directory names has its inode in the image. */
  ghost predicate ValidImage(img: seq<Byte>) {
    && ValidDirectory(img)
    && forall i | 0 <= i < DirCount(img) :: ValidEntry(img, Dentry(img, i))
  }

  predicate ValidEntry(img: seq<Byte>, dentry: seq<Byte>)
    requires |dentry| == DENTRY_SIZE
  {
    TypeOf(dentry) <= TYPE_FILE && (TypeOf(dentry) == TYPE_FILE ==> HasInode(img, InodeOf(dentry)))
  }

  ghost predicate TableInv(t: Table, img: seq<Byte>) {
    && t.Valid()
    && forall fd | MIN_TASK <= fd < MAX_TASK :: ReadableFd(t, img, fd)
  }

  ghost predicate Inv(s: System, img: seq<Byte>) {
    forall p: nat | p < |s.tables| :: TableInv(s.TableOf(p), img)
  }

  /** One call on the table of the process that makes it. */
  function OnTable(t: Table, img: seq<Byte>, c: Call): (r: Table)
    requires TableInv(t, img) && ValidImage(img)
    ensures |r.descs| == MAX_TASK
  {
    match c
    case OpenCall(_, name) =>
      (match Lookup(img, name)
       case None => t
       case Some(d) => Open(t, TypeOf(d), InodeOf(d)))
    case CloseCall(_, fd) => Close(t, fd)
    case ReadCall(_, fd, nbytes) => Read(t, img, fd, nbytes)
  }

  function Step(s: System, img: seq<Byte>, c: Call): (r: System)
    requires Inv(s, img) && ValidImage(img) && c.pid < |s.tables|
    ensures |r.tables| == |s.tables|
  {
    s.With(c.pid, OnTable(s.TableOf(c.pid), img, c))
  }

  lemma OpenKeeps(t: Table, img: seq<Byte>, d: seq<Byte>)
    requires TableInv(t, img) && |d| == DENTRY_SIZE && ValidEntry(img, d)
    ensures TableInv(Open(t, TypeOf(d), InodeOf(d)), img)
  {
    var i, r := t.FirstFree(MIN_TASK), Open(t, TypeOf(d), InodeOf(d));
    forall fd | MIN_TASK <= fd < MAX_TASK
      ensures ReadableFd(r, img, fd)
    {
      assert ReadableFd(t, img, fd);
    }
  }

  lemma CloseKeeps(t: Table, img: seq<Byte>, fd: int)
    requires TableInv(t, img)
    ensures TableInv(Close(t, fd), img)
  {
    forall i | MIN_TASK <= i < MAX_TASK
      ensures ReadableFd(Close(t, fd), img, i)
    {
      assert ReadableFd(t, img, i);
    }
  }

  lemma ReadKeeps(t: Table, img: seq<Byte>, fd: int, nbytes: nat)
    requires TableInv(t, img) && ValidDirectory(img)
    ensures ReadableFd(t, img, fd)
    ensures TableInv(Read(t, img, fd, nbytes), img)
  {
    forall i | MIN_TASK <= i < MAX_TASK
      ensures ReadableFd(Read(t, img, fd, nbytes), img, i)
    {
      assert ReadableFd(t, img, i);
    }
  }

  lemma OnTableKeeps(t: Table, img: seq<Byte>, c: Call)
    requires TableInv(t, img) && ValidImage(img)
    ensures TableInv(OnTable(t, img, c), img)
  {
    match c
    case OpenCall(_, name) =>
      match Lookup(img, name) {
        case None =>
        case Some(d) =>
          assert d == Dentry(img, FindName(img, name, 0));
          OpenKeeps(t, img, d);
      }
    case CloseCall(_, fd) => CloseKeeps(t, img, fd);
    case ReadCall(_, fd, nbytes) => ReadKeeps(t, img, fd, nbytes);
  }

  /** The shared globals do not matter for the invariant. */
  lemma SharedStateAside(t: Table, u: Table, img: seq<Byte>)
    requires TableInv(t, img) && u.descs == t.descs
    ensures TableInv(u, img)
  {
    forall fd | MIN_TASK <= fd < MAX_TASK
      ensures ReadableFd(u, img, fd)
    {
      assert ReadableFd(t, img, fd);
    }
  }

  lemma StepKeeps(s: System, img: seq<Byte>, c: Call)
    requires Inv(s, img) && ValidImage(img) && c.pid < |s.tables|
    ensures Inv(Step(s, img, c), img)
  {
    var r := Step(s, img, c);
    OnTableKeeps(s.TableOf(c.pid), img, c);
    forall p: nat | p < |r.tables|
      ensures TableInv(r.TableOf(p), img)
    {
      SharedStateAside(if p == c.pid then OnTable(s.TableOf(p), img, c) else s.TableOf(p), r.TableOf(p), img);
    }
  }

  ghost predicate AllFrom(s: System, calls: seq<Call>) {
    forall i | 0 <= i < |calls| :: calls[i].pid < |s.tables|
  }

  /**
    Main result: whatever the processes open, close and read, every descriptor in use is open on a file, a
    directory or the RTC, and every file's inode is in the image.
   */
  function Run(s: System, img: seq<Byte>, calls: seq<Call>): (r: System)
    requires Inv(s, img) && ValidImage(img) && AllFrom(s, calls)
    ensures Inv(r, img) && |r.tables| == |s.tables|
  {
    if calls == [] then s
    else
      var before := Run(s, img, calls[..|calls| - 1]);
      StepKeeps(before, img, calls[|calls| - 1]);
      Step(before, img, calls[|calls| - 1])
  }

  /** Descriptors 0 and 1 of every process stay the terminal's. */
  lemma TerminalStays(s: System, img: seq<Byte>, calls: seq<Call>, p: nat)
    requires Inv(s, img) && ValidImage(img) && AllFrom(s, calls) && p < |s.tables|
    ensures var t := Run(s, img, calls).TableOf(p);
            && |t.descs| == MAX_TASK && t.InUse(0) && t.InUse(1)
            && t.descs[0].ops == StdinOps && t.descs[1].ops == StdoutOps
  {
    assert TableInv(Run(s, img, calls).TableOf(p), img);
  }

  /**
    Main result: opening a name that exists takes the lowest descriptor of 2..7 not in use, and
    touches no other; it fails exactly when all six are in use.
   */
  lemma OpenTakesLowest(t: Table, img: seq<Byte>, pid: nat, name: seq<Byte>, fd: nat)
    requires TableInv(t, img) && ValidImage(img) && fd == t.FirstFree(MIN_TASK)
    requires exists i :: 0 <= i < DirCount(img) && Name(img, i) == name
    ensures fd == MAX_TASK <==> forall i | MIN_TASK <= i < MAX_TASK :: t.InUse(i)
    ensures fd == MAX_TASK ==> OnTable(t, img, OpenCall(pid, name)) == t
    ensures fd < MAX_TASK ==>
              && !t.InUse(fd) && (forall i | MIN_TASK <= i < fd :: t.InUse(i))
              && var r := OnTable(t, img, OpenCall(pid, name));
                 && r.InUse(fd) && r.descs[fd].filePosition == 0
                 && PointsTo(r.descs[fd], Dentry(img, FindName(img, name, 0)))
                 && forall i | 0 <= i < MAX_TASK && i != fd :: r.descs[i] == t.descs[i]
  {
    var i := FindName(img, name, 0);
    assert i < DirCount(img);
    assert ValidEntry(img, Dentry(img, i));
    FirstFreeIsLowest(t);
  }

  /** The descriptor reads what the directory entry names. */
  predicate PointsTo(d: Desc, dentry: seq<Byte>)
    requires |dentry| == DENTRY_SIZE
  {
    && (d.ops == RtcOps <==> TypeOf(dentry) == 0)
    && (d.ops == DirOps <==> TypeOf(dentry) == 1)
    && (d.ops == FileOps <==> TypeOf(dentry) == 2)
    && (d.ops == FileOps ==> d.inode == InodeOf(dentry))
  }

  /** Closing what was just opened leaves the same descriptors in use as before, and nothing else moved. */
  lemma CloseUndoesOpen(t: Table, img: seq<Byte>, pid: nat, name: seq<Byte>)
    requires TableInv(t, img) && ValidImage(img) && t.FirstFree(MIN_TASK) < MAX_TASK
    requires exists i :: 0 <= i < DirCount(img) && Name(img, i) == name
    ensures var fd := t.FirstFree(MIN_TASK); var r := OnTable(t, img, OpenCall(pid, name));
            && Closes(r, fd)
            && !Close(r, fd).InUse(fd) && Close(r, fd).FirstFree(MIN_TASK) == fd
            && Close(r, fd).dirLocation == t.dirLocation
            && forall i | 0 <= i < MAX_TASK && i != fd :: Close(r, fd).descs[i] == t.descs[i]
  {
  }

  lemma FirstFreeIsLowest(t: Table)
    requires t.Valid()
    ensures var fd := t.FirstFree(MIN_TASK);
            && (fd < MAX_TASK ==> !t.InUse(fd))
            && (forall i | MIN_TASK <= i < fd :: t.InUse(i))
  {
  }

  // ------------------------------------------------------------------ independence of reads

  /** Nobody closes descriptor `fd` of process `p`. */
  ghost predicate Kept(calls: seq<Call>, p: nat, fd: int) {
    forall i | 0 <= i < |calls| :: !IsCloseOf(calls[i], p, fd)
  }

  predicate IsCloseOf(c: Call, p: nat, fd: int) {
    c.CloseCall? && c.pid == p && c.fd == fd
  }

  predicate IsReadOn(c: Call, p: nat, fd: int) {
    c.ReadCall? && c.pid == p && c.fd == fd
  }

  /** The reads of one descriptor of one process. */
  function OwnReads(calls: seq<Call>, p: nat, fd: int): (r: seq<Call>)
    ensures forall i | 0 <= i < |r| :: IsReadOn(r[i], p, fd)
  {
    if calls == [] then []
    else
      var before, c := calls[..|calls| - 1], calls[|calls| - 1];
      OwnReads(before, p, fd) + if IsReadOn(c, p, fd) then [c] else []
  }

  predicate Points(d: Desc, img: seq<Byte>) {
    d.ops == FileOps ==> HasInode(img, d.inode)
  }

  /** A descriptor after a read: a file's position moves on by what the read returned. */
  function Moved(d: Desc, img: seq<Byte>, nbytes: nat): Desc
    requires Points(d, img)
  {
    if d.ops != FileOps then d
    else d.(filePosition := d.filePosition + ReadResult(img, d.inode, d.filePosition, nbytes))
  }

  /** A descriptor after the given reads of it and nothing else. */
  function AfterReads(d: Desc, img: seq<Byte>, own: seq<Call>): (r: Desc)
    requires Points(d, img) && forall i | 0 <= i < |own| :: own[i].ReadCall?
    ensures Points(r, img) && r.(filePosition := d.filePosition) == d
  {
    if own == [] then d else Moved(AfterReads(d, img, own[..|own| - 1]), img, own[|own| - 1].nbytes)
  }

  /** What a call does to a descriptor in use that it does not close. */
  lemma StepOnDesc(s: System, img: seq<Byte>, c: Call, p: nat, fd: nat)
    requires Inv(s, img) && ValidImage(img) && c.pid < |s.tables| && p < |s.tables| && fd < MAX_TASK
    requires s.TableOf(p).InUse(fd) && !IsCloseOf(c, p, fd)
    ensures Points(s.tables[p][fd], img)
    ensures Step(s, img, c).tables[p][fd] ==
            if IsReadOn(c, p, fd) then Moved(s.tables[p][fd], img, c.nbytes) else s.tables[p][fd]
  {
    assert TableInv(s.TableOf(p), img) && ReadableFd(s.TableOf(p), img, fd);
    if c.OpenCall? {
      FirstFreeIsLowest(s.TableOf(c.pid));
    }
  }

  lemma AfterOneMore(d: Desc, img: seq<Byte>, own: seq<Call>, c: Call)
    requires Points(d, img) && c.ReadCall? && forall i | 0 <= i < |own| :: own[i].ReadCall?
    ensures AfterReads(d, img, own + [c]) == Moved(AfterReads(d, img, own), img, c.nbytes)
  {
    assert (own + [c])[..|own|] == own;
  }

  /**
    Main result: whatever all processes open, close and read meanwhile, a descriptor that is in use and
    that its process does not close ends where its own reads alone take it.
   */
  lemma {:induction false} ReadsAreIndependent(s: System, img: seq<Byte>, calls: seq<Call>, p: nat, fd: nat)
    requires Inv(s, img) && ValidImage(img) && AllFrom(s, calls) && p < |s.tables| && fd < MAX_TASK
    requires s.TableOf(p).InUse(fd) && Kept(calls, p, fd)
    ensures Points(s.tables[p][fd], img) && |Run(s, img, calls).tables[p]| == MAX_TASK
    ensures Run(s, img, calls).tables[p][fd] == AfterReads(s.tables[p][fd], img, OwnReads(calls, p, fd))
  {
    assert TableInv(s.TableOf(p), img) && ReadableFd(s.TableOf(p), img, fd);
    assert TableInv(Run(s, img, calls).TableOf(p), img);
    if calls != [] {
      var before, c := calls[..|calls| - 1], calls[|calls| - 1];
      ReadsAreIndependent(s, img, before, p, fd);
      StepOnDesc(Run(s, img, before), img, c, p, fd);
      if IsReadOn(c, p, fd) {
        AfterOneMore(s.tables[p][fd], img, OwnReads(before, p, fd), c);
      } else {
        assert OwnReads(calls, p, fd) == OwnReads(before, p, fd);
      }
    }
  }

  // ------------------------------------------------------------------ directories share one position

  predicate ListsDirectory(s: System, c: Call)
    requires c.pid < |s.tables| && |s.tables[c.pid]| == MAX_TASK
  {
    c.ReadCall? && s.TableOf(c.pid).InUse(c.fd) && s.tables[c.pid][c.fd].ops == DirOps
  }

  /** How many of the calls read a directory, by any process. */
  function DirReads(s: System, img: seq<Byte>, calls: seq<Call>): nat
    requires Inv(s, img) && ValidImage(img) && AllFrom(s, calls)
  {
    if calls == [] then 0
    else
      var before, c := calls[..|calls| - 1], calls[|calls| - 1];
      DirReads(s, img, before) + if ListsAfter(s, img, before, c) then 1 else 0
  }

  predicate ListsAfter(s: System, img: seq<Byte>, before: seq<Call>, c: Call)
    requires Inv(s, img) && ValidImage(img) && AllFrom(s, before) && c.pid < |s.tables|
  {
    var r := Run(s, img, before);
    assert TableInv(r.TableOf(c.pid), img);
    ListsDirectory(r, c)
  }

  lemma DirStep(s: System, img: seq<Byte>, c: Call)
    requires Inv(s, img) && ValidImage(img) && c.pid < |s.tables| && |s.tables[c.pid]| == MAX_TASK
    ensures Step(s, img, c).dirLocation ==
            if ListsDirectory(s, c) then NextLocation(img, s.dirLocation) else s.dirLocation
  {
    assert TableInv(s.TableOf(c.pid), img);
  }

  /** The listing position `loc` after one more read. */
  function Advanced(loc: nat, count: nat): nat {
    if loc < count then loc + 1 else 0
  }

  /** The listing position after `n` reads from the start. */
  function Cycled(n: nat, count: nat): nat {
    if n == 0 then 0
    else
      Advanced(Cycled(n - 1, count), count)
  }

  lemma {:induction false} CycledIs(n: nat, count: nat)
    ensures Cycled(n, count) == n % (count + 1)
  {
    if n == 0 {
      SmallModulo(0, count + 1);
    } else {
      CycledIs(n - 1, count);
      CycleStep(n - 1, count);
    }
  }

  lemma {:induction false} CycledStart(n: nat, count: nat)
    requires n <= count
    ensures Cycled(n, count) == n
  {
    if n > 0 {
      CycledStart(n - 1, count);
    }
  }

  lemma ListingStep(s: System, img: seq<Byte>, calls: seq<Call>, before: seq<Call>, count: nat)
    returns (lists: bool, loc: nat, next: nat, n: nat)
    requires Inv(s, img) && ValidImage(img) && AllFrom(s, calls) && count == DirCount(img)
    requires calls != [] && before == calls[..|calls| - 1]
    ensures loc == Run(s, img, before).dirLocation && next == Run(s, img, calls).dirLocation
    ensures n == DirReads(s, img, before) && DirReads(s, img, calls) == if lists then n + 1 else n
    ensures next == if lists then Advanced(loc, count) else loc
  {
    var r, c := Run(s, img, before), calls[|calls| - 1];
    assert TableInv(r.TableOf(c.pid), img);
    DirStep(r, img, c);
    lists, n := ListsAfter(s, img, before, c), DirReads(s, img, before);
    loc, next := r.dirLocation, Step(r, img, c).dirLocation;
  }

  lemma CycledNext(n: nat, count: nat)
    ensures Cycled(n + 1, count) == Advanced(Cycled(n, count), count)
  {
  }

  lemma {:induction false} ListingCycles(s: System, img: seq<Byte>, calls: seq<Call>, count: nat)
    returns (n: nat, loc: nat)
    requires Inv(s, img) && ValidImage(img) && AllFrom(s, calls) && s.dirLocation <= count == DirCount(img)
    ensures n == s.dirLocation + DirReads(s, img, calls) && loc == Run(s, img, calls).dirLocation
    ensures loc == Cycled(n, count)
  {
    if calls == [] {
      CycledStart(s.dirLocation, count);
      n, loc := s.dirLocation, s.dirLocation;
    } else {
      var before := calls[..|calls| - 1];
      var m, _ := ListingCycles(s, img, before, count);
      var lists, _, next, _ := ListingStep(s, img, calls, before, count);
      CycledNext(m, count);
      n, loc := if lists then m + 1 else m, next;
    }
  }

  /** Main result: the listing position counts the directory reads of all processes together. */
  lemma ListingPosition(s: System, img: seq<Byte>, calls: seq<Call>, count: nat) returns (n: nat)
    requires Inv(s, img) && ValidImage(img) && AllFrom(s, calls) && s.dirLocation <= count == DirCount(img)
    ensures n == DirReads(s, img, calls)
    ensures Run(s, img, calls).dirLocation == (s.dirLocation + n) % (count + 1)
  {
    var total, loc := ListingCycles(s, img, calls, count);
    n := DirReads(s, img, calls);
    CycledIs(total, count);
  }

  /** The directory reads other than those of descriptor `fd` of process `p`. */
  function OtherDirReads(s: System, img: seq<Byte>, calls: seq<Call>, p: nat, fd: int): nat
    requires Inv(s, img) && ValidImage(img) && AllFrom(s, calls)
  {
    if calls == [] then 0
    else
      var before, c := calls[..|calls| - 1], calls[|calls| - 1];
      OtherDirReads(s, img, before, p, fd) + if ListsAfter(s, img, before, c) && !IsReadOn(c, p, fd) then 1 else 0
  }

  /** A read of an open directory that is not closed meanwhile always counts. */
  lemma OwnReadLists(s: System, img: seq<Byte>, before: seq<Call>, c: Call, p: nat, fd: nat)
    requires Inv(s, img) && ValidImage(img) && AllFrom(s, before) && p < |s.tables| && fd < MAX_TASK
    requires s.TableOf(p).InUse(fd) && s.tables[p][fd].ops == DirOps && Kept(before, p, fd) && IsReadOn(c, p, fd)
    ensures ListsAfter(s, img, before, c)
  {
    ReadsAreIndependent(s, img, before, p, fd);
  }

  lemma {:induction false} DirReadsSplit(s: System, img: seq<Byte>, calls: seq<Call>, p: nat, fd: nat)
    requires Inv(s, img) && ValidImage(img) && AllFrom(s, calls) && p < |s.tables| && fd < MAX_TASK
    requires s.TableOf(p).InUse(fd) && s.tables[p][fd].ops == DirOps && Kept(calls, p, fd)
    ensures DirReads(s, img, calls) == |OwnReads(calls, p, fd)| + OtherDirReads(s, img, calls, p, fd)
  {
    if calls != [] {
      var before, c := calls[..|calls| - 1], calls[|calls| - 1];
      DirReadsSplit(s, img, before, p, fd);
      if IsReadOn(c, p, fd) {
        OwnReadLists(s, img, before, c, p, fd);
      }
    }
  }

  lemma {:induction false} OnlyOwnReads(s: System, img: seq<Byte>, own: seq<Call>, p: nat, fd: nat)
    requires Inv(s, img) && ValidImage(img) && p < |s.tables| && forall i | 0 <= i < |own| :: IsReadOn(own[i], p, fd)
    ensures AllFrom(s, own) && Kept(own, p, fd)
    ensures OtherDirReads(s, img, own, p, fd) == 0 && OwnReads(own, p, fd) == own
  {
    if own != [] {
      var before, c := own[..|own| - 1], own[|own| - 1];
      OnlyOwnReads(s, img, before, p, fd);
      assert IsReadOn(c, p, fd);
      assert own == before + [c];
    }
  }

  /** A listing of `count` names and its end, gone through a whole number of times. */
  predicate WholeCycles(n: nat, count: nat) {
    Cycled(n, count) == 0
  }

  lemma SharedIff(x: nat, y: nat, n: nat, others: nat, count: nat)
    requires x == Cycled(n + others, count) && y == Cycled(n, count)
    ensures x == y <==> WholeCycles(others, count)
  {
    CycledIs(n + others, count);
    CycledIs(n, count);
    CycledIs(others, count);
    ModuloShift(n, others, count + 1);
  }

  lemma SharedPosition(s: System, img: seq<Byte>, calls: seq<Call>, p: nat, fd: nat, count: nat) returns (x: nat)
    requires Inv(s, img) && ValidImage(img) && AllFrom(s, calls) && s.dirLocation <= count == DirCount(img)
    requires p < |s.tables| && fd < MAX_TASK
    requires s.TableOf(p).InUse(fd) && s.tables[p][fd].ops == DirOps && Kept(calls, p, fd)
    ensures x == Run(s, img, calls).dirLocation ==
            Cycled(s.dirLocation + |OwnReads(calls, p, fd)| + OtherDirReads(s, img, calls, p, fd), count)
  {
    DirReadsSplit(s, img, calls, p, fd);
    var _, loc := ListingCycles(s, img, calls, count);
    x := loc;
  }

  lemma OwnPosition(s: System, img: seq<Byte>, own: seq<Call>, p: nat, fd: nat, count: nat) returns (y: nat)
    requires Inv(s, img) && ValidImage(img) && s.dirLocation <= count == DirCount(img)
    requires p < |s.tables| && fd < MAX_TASK && forall i | 0 <= i < |own| :: IsReadOn(own[i], p, fd)
    requires s.TableOf(p).InUse(fd) && s.tables[p][fd].ops == DirOps
    ensures AllFrom(s, own) && y == Run(s, img, own).dirLocation == Cycled(s.dirLocation + |own|, count)
  {
    OnlyOwnReads(s, img, own, p, fd);
    y := SharedPosition(s, img, own, p, fd, count);
  }

  /**
    Directories are not independent: an open directory is left at the position its own reads alone
    would give exactly when all other directory reads, by whatever process, add up to whole cycles.
   */
  lemma DirectoriesShare(s: System, img: seq<Byte>, calls: seq<Call>, p: nat, fd: nat)
    returns (own: seq<Call>, x: nat, y: nat)
    requires Inv(s, img) && ValidImage(img) && AllFrom(s, calls) && s.dirLocation <= DirCount(img)
    requires p < |s.tables| && fd < MAX_TASK
    requires s.TableOf(p).InUse(fd) && s.tables[p][fd].ops == DirOps && Kept(calls, p, fd)
    ensures own == OwnReads(calls, p, fd) && AllFrom(s, own)
    ensures x == Run(s, img, calls).dirLocation && y == Run(s, img, own).dirLocation
    ensures x == y <==> WholeCycles(OtherDirReads(s, img, calls, p, fd), DirCount(img))
  {
    var count := DirCount(img);
    own := OwnReads(calls, p, fd);
    x := SharedPosition(s, img, calls, p, fd, count);
    y := OwnPosition(s, img, own, p, fd, count);
    SharedIff(x, y, s.dirLocation + |own|, OtherDirReads(s, img, calls, p, fd), count);
  }

  /** An input on which they interfere: two directories listed in turn, from the start, in an image that has entries. */
  lemma TwoListings(s: System, img: seq<Byte>, p: nat, fd: nat, q: nat, gd: nat)
    requires Inv(s, img) && ValidImage(img) && s.dirLocation == 0 < DirCount(img)
    requires p < |s.tables| && q < |s.tables| && fd < MAX_TASK && gd < MAX_TASK && (p != q || fd != gd)
    requires s.TableOf(p).InUse(fd) && s.tables[p][fd].ops == DirOps
    requires s.TableOf(q).InUse(gd) && s.tables[q][gd].ops == DirOps
    ensures var first, second := ReadCall(q, gd, 33), ReadCall(p, fd, 33);
            && AllFrom(s, [second]) && AllFrom(s, [first, second])
            && Run(s, img, [second]).dirLocation == 1
            && Run(s, img, [first, second]).dirLocation == (if DirCount(img) == 1 then 0 else 2)
  {
    var first, second := ReadCall(q, gd, 33), ReadCall(p, fd, 33);
    assert [first, second][..1] == [first] && [first][..0] == [] && [second][..0] == [];
    assert Run(s, img, []) == s;
    assert TableInv(s.TableOf(p), img) && TableInv(s.TableOf(q), img);
    DirStep(s, img, first);
    DirStep(s, img, second);
    var r := Step(s, img, first);
    StepKeeps(s, img, first);
    assert TableInv(r.TableOf(p), img);
    StepOnDesc(s, img, first, p, fd);
    DirStep(r, img, second);
    assert Run(s, img, [first]) == r;
  }

  // ------------------------------------------------------------------ carrying it out

  /** The call can be carried out: names have no NUL, reads do not wait for a device and stay in the image. */
  predicate Doable(t: Table, img: seq<Byte>, c: Call)
    requires TableInv(t, img) && ValidImage(img)
  {
    match c
    case OpenCall(_, name) => NUL !in name
    case CloseCall(_, _) => true
    case ReadCall(_, fd, nbytes) =>
      t.InUse(fd) ==>
        var d := t.descs[fd];
        && d.ops != StdinOps && d.ops != RtcOps
        && (d.ops == FileOps && ReadableFd(t, img, fd) && d.filePosition < Length(img, d.inode) ==>
              Readable(img, d.inode, d.filePosition, nbytes))
  }

  ghost predicate AllDoable(s: System, img: seq<Byte>, calls: seq<Call>)
    requires Inv(s, img) && ValidImage(img) && AllFrom(s, calls)
  {
    forall i | 0 <= i < |calls| :: Doable(Run(s, img, calls[..i]).TableOf(calls[i].pid), img, calls[i])
  }

  /** One system call on the table of the process that makes it. */
  method Handle(t: FileTable, img: seq<Byte>, c: Call)
    requires TableInv(t.View(), img) && ValidImage(img) && Doable(t.View(), img, c)
    modifies t, t.listing, t.rtc
    ensures t.View() == OnTable(old(t.View()), img, c)
  {
    match c
    case OpenCall(_, name) =>
      CLenIs(name + [NUL], |name|);
      assert CString(name + [NUL]) == name;
      var _ := t.SysOpen(img, name + [NUL]);
    case CloseCall(_, fd) =>
      var _ := t.SysClose(fd);
    case ReadCall(_, fd, nbytes) =>
      assert ReadableFd(t.View(), img, fd);
      var buf := new Byte[if nbytes < 33 then 33 else nbytes];
      var _ := t.SysRead(img, fd, buf, nbytes);
  }

  /** The tables of all processes, which share one listing position and one RTC. */
  ghost predicate Sharing(tables: seq<FileTable>, listing: Listing, rtc: Rtc) {
    && (forall i | 0 <= i < |tables| :: tables[i].listing == listing && tables[i].rtc == rtc)
    && forall i, j | 0 <= i < j < |tables| :: tables[i] != tables[j]
  }

  ghost function ViewOf(tables: seq<FileTable>, listing: Listing, rtc: Rtc): (s: System)
    reads tables, listing, rtc
    ensures |s.tables| == |tables|
  {
    System(seq(|tables|, i requires 0 <= i < |tables| reads tables => tables[i].fileDesc),
           rtc.isOpen, listing.dirLocation)
  }

  /** Main result: carrying out any such sequence of calls leaves all tables as `Run` says. */
  method HandleAll(tables: seq<FileTable>, listing: Listing, rtc: Rtc, img: seq<Byte>, calls: seq<Call>)
    requires Sharing(tables, listing, rtc) && ValidImage(img)
    requires var s := ViewOf(tables, listing, rtc); Inv(s, img) && AllFrom(s, calls) && AllDoable(s, img, calls)
    modifies tables, listing, rtc
    ensures ViewOf(tables, listing, rtc) == Run(old(ViewOf(tables, listing, rtc)), img, calls)
  {
    ghost var s := ViewOf(tables, listing, rtc);
    for i := 0 to |calls|
      invariant ViewOf(tables, listing, rtc) == Run(s, img, calls[..i])
    {
      HandleFor(tables, listing, rtc, img, calls[i]);
      assert calls[..i + 1][..i] == calls[..i];
    }
    assert calls[..|calls|] == calls;
  }

  method HandleFor(tables: seq<FileTable>, listing: Listing, rtc: Rtc, img: seq<Byte>, c: Call)
    requires Sharing(tables, listing, rtc) && ValidImage(img) && c.pid < |tables|
    requires Inv(ViewOf(tables, listing, rtc), img) && Doable(ViewOf(tables, listing, rtc).TableOf(c.pid), img, c)
    modifies tables[c.pid], listing, rtc
    ensures ViewOf(tables, listing, rtc) == Step(old(ViewOf(tables, listing, rtc)), img, c)
  {
    ghost var s := ViewOf(tables, listing, rtc);
    var t := tables[c.pid];
    assert t.View() == s.TableOf(c.pid);
    Handle(t, img, c);
    assert ViewOf(tables, listing, rtc).tables == s.tables[c.pid := t.fileDesc];
  }
}
