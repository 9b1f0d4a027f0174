/**
  The kernel's process management as it is carried out: the timer handler, execute, halt and
  getargs, updating the process table, the PCBs and the CPU state step by step.  Every method
  is proved to be the step of `Processes` it stands for.
 */
module Kernel {
  import opened Bytes
  import opened Layout
  import opened Strings
  import opened FileSystem
  import opened Directory
  import opened Descriptors
  import opened Arguments
  import opened Processes
  import opened Scheduler
  import opened Runs

  const HEADER_SIZE: nat := 40

  /** Every entry's inode, and the first block of a file that is not empty, are in the image. */
  ghost predicate ValidPrograms(img: seq<Byte>) {
    && ValidDirectory(img)
    && forall i | 0 <= i < DirCount(img) :: HasProgram(img, InodeOf(Dentry(img, i)))
  }

  predicate HasProgram(img: seq<Byte>, inode: nat) {
    HasInode(img, inode) && (Length(img, inode) > 0 ==> HasBlock(img, inode, 0))
  }

  /** The first three bytes of the ELF magic number; the fourth is not looked at. */
  predicate IsExecutable(header: seq<Byte>)
    requires |header| >= 3
  {
    header[0] == 0x7F && header[1] == 0x45 && header[2] == 0x4C
  }

  /**
    What execute makes of a command: `neighbour` is the byte behind its file name array and
    `stale` what its header buffer holds before the file is read into it.
   */
  function LoadOf(img: seq<Byte>, command: seq<Byte>, neighbour: Byte, stale: seq<Byte>): Load
    requires |command| >= READ_LIMIT && |img| >= FOUR_KB && DirCount(img) <= MAX_DENTRIES && |stale| >= 3
  {
    match Parse(command, neighbour)
    case Rejected => Unloadable
    case Command(filename, arg, argSize) =>
      match Lookup(img, CString(filename + [NUL]))
      case None => Unloadable
      case Some(d) =>
        if IsExecutable(HeaderOf(img, InodeOf(d), stale)) then Program(arg, argSize) else Unloadable
  }

  /** The first bytes of the file; an empty file leaves the buffer as it was. */
  function HeaderOf(img: seq<Byte>, inode: nat, stale: seq<Byte>): (h: seq<Byte>)
    requires |stale| >= 3
    ensures |h| >= 3
  {
    if HasInode(img, inode) && Length(img, inode) > 0
    then [ByteAt(img, inode, 0), ByteAt(img, inode, 1), ByteAt(img, inode, 2)]
    else stale
  }

  /** The part of execute that parses the command and checks the file. */
  method LoadProgram(img: seq<Byte>, command: seq<Byte>, neighbour: Byte, stale: seq<Byte>) returns (load: Load)
    requires |command| >= READ_LIMIT && ValidPrograms(img) && |stale| == HEADER_SIZE
    ensures load == LoadOf(img, command, neighbour, stale)
  {
    var parsed := ParseCommand(command, neighbour);
    if parsed == Rejected {
      return Unloadable;
    }
    var dentry := new Byte[DENTRY_SIZE];
    var found := ReadDentryByName(img, parsed.filename + [NUL], dentry);
    if !found {
      return Unloadable;
    }
    var executable := CheckMagic(img, InodeOf(dentry[..]), stale);
    if !executable {
      return Unloadable;
    }
    return Program(parsed.arg, parsed.argSize);
  }

  method CheckMagic(img: seq<Byte>, inode: nat, stale: seq<Byte>) returns (ok: bool)
    requires HasProgram(img, inode) && |stale| == HEADER_SIZE
    ensures ok == IsExecutable(HeaderOf(img, inode, stale))
  {
    var fileBuf := new Byte[HEADER_SIZE](i requires 0 <= i < HEADER_SIZE => stale[i]);
    assert fileBuf[..] == stale;
    ReadHeader(img, inode, fileBuf);
    assert forall i | 0 <= i < 3 :: fileBuf[i] == fileBuf[..3][i] == HeaderOf(img, inode, stale)[i];
    var magic: seq<Byte> := [0x7F, 0x45, 0x4C, 0x46];
    for i := 0 to 3
      invariant forall k | 0 <= k < i :: fileBuf[k] == magic[k]
    {
      if fileBuf[i] != magic[i] {
        return false;
      }
    }
    assert fileBuf[0] == magic[0] && fileBuf[1] == magic[1] && fileBuf[2] == magic[2];
    return true;
  }

  method ReadHeader(img: seq<Byte>, inode: nat, fileBuf: array<Byte>)
    requires HasProgram(img, inode) && fileBuf.Length == HEADER_SIZE
    modifies fileBuf
    ensures fileBuf[..3] == HeaderOf(img, inode, old(fileBuf[..]))[..3]
  {
    var r := ReadData(img, inode, 0, fileBuf, HEADER_SIZE);
    assert forall i | 0 <= i < r :: fileBuf[..r][i] == fileBuf[i];
    assert r > 0 ==> fileBuf[0] == ByteAt(img, inode, 0 + 0) && fileBuf[1] == ByteAt(img, inode, 0 + 1)
                     && fileBuf[2] == ByteAt(img, inode, 0 + 2);
  }

  class Kernel {
    var procArr: seq<int>
    var pcbs: seq<Pcb>
    var oteMb: int
    var esp0: int
    var schedArr: seq<Context>
    var shellsRunning: seq<bool>
    var schedArrInit: bool
    var termInService: nat
    var curTerm: nat
    const shellProgram: Load                 // what the command "shell" loads
    var esp: int
    var ebp: int

    ghost function View(): State
      reads this
    {
      State(procArr, pcbs, oteMb, esp0, schedArr, shellsRunning, schedArrInit, termInService, curTerm,
            shellProgram, esp, ebp)
    }

    // ---------------------------------------------------------------- execute

    /** The slot search at the top of execute; the slot found is marked as running. */
    method ReserveSlot() returns (slot: nat)
      requires View().WellFormed()
      modifies this`procArr
      ensures slot == old(View()).FreeSlot()
      ensures View() == if slot == MAX_PROCESSES then old(View())
                        else old(View()).(procArr := old(procArr)[slot := RUNNING])
    {
      slot := 0;
      while slot < MAX_PROCESSES
        invariant slot <= MAX_PROCESSES && View() == old(View())
        invariant View().FirstFree(0) == View().FirstFree(slot)
      {
        if procArr[slot] == FREE {
          procArr := procArr[slot := RUNNING];
          return;
        }
        slot := slot + 1;
      }
    }

    /** The rest of execute once the program is found: map its page, fill in its PCB, enter it. */
    method Launch(slot: nat, load: Load, callEsp: int, callEbp: int)
      requires View().WellFormed() && slot < MAX_PROCESSES && load.Program?
      modifies this
      ensures View() == var s := old(View());
                s.(pcbs := s.pcbs[slot := Pcb(ProcessNumber(callEsp), s.oteMb, callEsp, callEbp, s.displayed,
                                              load.arg, load.argSize)],
                   oteMb := Mapping(slot), esp0 := StackBase(slot), esp := StackBase(slot), ebp := 0)
    {
      var parentPid := ProcessNumber(callEsp);
      var physAddr := EIGHT_MB + slot * FOUR_MB;
      var parPhysAddr := oteMb;
      oteMb := physAddr + PAGE_FLAGS;
      var pcb := Pcb(parentPid, parPhysAddr, callEsp, callEbp, curTerm, load.arg, load.argSize);
      pcbs := pcbs[slot := pcb];
      esp0 := StackBase(slot);
      esp, ebp := esp0, 0;
    }

    /** sys_execute called with the kernel stack at (callEsp, callEbp). */
    method SysExecute(img: seq<Byte>, command: seq<Byte>, neighbour: Byte, stale: seq<Byte>, callEsp: int, callEbp: int)
      returns (started: bool)
      requires View().WellFormed()
      requires |command| >= READ_LIMIT && ValidPrograms(img) && |stale| == HEADER_SIZE
      modifies this
      ensures var load := LoadOf(img, command, neighbour, stale);
              && View() == Execute(old(View()), callEsp, callEbp, load)
              && started == Starts(old(View()), load)
    {
      var slot := ReserveSlot();
      if slot == MAX_PROCESSES {
        return false;
      }
      var load := LoadProgram(img, command, neighbour, stale);
      if load == Unloadable {
        procArr := procArr[slot := FREE];
        assert procArr == old(procArr);
        return false;
      }
      Launch(slot, load, callEsp, callEbp);
      return true;
    }

    // ---------------------------------------------------------------- halt and getargs

    /** sys_halt entered `depth` bytes down the kernel stack. */
    method SysHalt(depth: nat)
      requires View().WellFormed() && ValidEntry(View(), depth)
      modifies this
      ensures View() == Halt(old(View()), depth)
    {
      var processNumber := ProcessNumber(esp0 - depth);
      if processNumber == 0 {
        return;
      }
      var pcb := pcbs[processNumber];
      esp0 := EIGHT_MB - EIGHT_KB * pcb.parentPid - 1;
      oteMb := pcb.parentPhysAddr;
      procArr := procArr[processNumber := FREE];
      esp, ebp := pcb.parentEsp, pcb.parentEbp;
    }

    /** sys_getargs for the running process. */
    method SysGetargs(depth: nat, buf: array?<Byte>, nbytes: nat) returns (r: int)
      requires View().WellFormed() && ValidEntry(View(), depth)
      requires |pcbs[ProcessNumber(esp0 - depth)].arg| == KB_BUF_SIZE_MAX
      requires buf != null ==> Clamped(nbytes) < buf.Length
      modifies buf
      ensures View() == old(View())
      ensures var pcb := pcbs[ProcessNumber(esp0 - depth)];
              && r == (if buf != null && GivesArgs(pcb.arg, pcb.argSize, nbytes) then 0 else -1)
              && (r == 0 ==> buf[..Clamped(nbytes) + 1] == pcb.arg[..Clamped(nbytes)] + [NUL])
    {
      var pcb := pcbs[ProcessNumber(esp0 - depth)];
      r := Getargs(pcb.arg, pcb.argSize, buf, nbytes);
    }

    // ---------------------------------------------------------------- the timer

    /** get_next_proc: the scan keeps only the first child it meets. */
    method GetNextProc(currTerm: nat) returns (next: nat)
      requires View().WellFormed()
      ensures next == View().ActiveOn((currTerm + 1) % NUM_TERMS)
    {
      next := (currTerm + 1) % NUM_TERMS;
      ghost var t := next;
      for procIt := NUM_TERMS to MAX_PROCESSES
        invariant next == t || View().ChildOn(next, t)
        invariant next == t ==> forall p | NUM_TERMS <= p < procIt :: !View().ChildOn(p, t)
        invariant next != t ==> next < procIt && forall p | NUM_TERMS <= p < next :: !View().ChildOn(p, t)
      {
        if procArr[procIt] != FREE && pcbs[procIt].term == next {
          next := procIt;
        }
      }
    }

    method InitShells()
      requires View().WellFormed()
      modifies this`pcbs, this`schedArrInit
      ensures View() == old(View()).(pcbs := InitShellPcbs(old(pcbs)), schedInit := true)
    {
      schedArrInit := true;
      var base := pcbs[0];
      for shell := 1 to NUM_TERMS
        invariant View().WellFormed() && schedArrInit && pcbs[0] == base
        invariant View() == old(View()).(pcbs := pcbs, schedInit := true)
        invariant forall p | 0 <= p < MAX_PROCESSES ::
                    pcbs[p] == if 1 <= p < shell then InitShellPcb(base, old(pcbs)[p], p) else old(pcbs)[p]
      {
        var pcb := pcbs[shell];
        pcb := pcb.(parentPid := base.parentPid);
        pcb := pcb.(parentPhysAddr := base.parentPhysAddr);
        pcb := pcb.(parentEsp := base.parentEsp);
        pcb := pcb.(parentEbp := base.parentEbp);
        pcb := pcb.(term := shell);
        pcbs := pcbs[shell := pcb];
      }
      assert pcbs == InitShellPcbs(old(pcbs));
    }

    /** run_shell; it comes back only if the shell could not be started. */
    method RunShell(shell: nat, callEsp: int, callEbp: int) returns (started: bool)
      requires View().WellFormed() && shell < NUM_TERMS && !shellsRunning[shell]
      modifies this
      ensures var ready := old(View()).(shellsRunning := old(shellsRunning)[shell := true]);
              && View() == Execute(ready, callEsp, callEbp, shellProgram)
              && started == Starts(ready, shellProgram)
    {
      shellsRunning := shellsRunning[shell := true];
      var slot := ReserveSlot();
      if slot == MAX_PROCESSES {
        return false;
      }
      if shellProgram == Unloadable {
        procArr := procArr[slot := FREE];
        assert procArr == old(procArr);
        return false;
      }
      Launch(slot, shellProgram, callEsp, callEbp);
      return true;
    }

    /** The end of pit_handler. */
    method LoadContext(next: nat, newTerm: nat)
      requires View().WellFormed() && newTerm < NUM_TERMS
      modifies this
      ensures View() == Dispatch(old(View()), next, newTerm)
    {
      esp0 := EIGHT_MB - EIGHT_KB * next - 1;
      oteMb := schedArr[newTerm].oteMb;
      termInService := newTerm;
      ebp := schedArr[newTerm].ebp;
      esp := schedArr[newTerm].esp;
    }

    /** The branch of pit_handler that starts the shell of a terminal. */
    method StartShellOn(shell: nat, saved: Context, next: nat, newTerm: nat)
      requires View().WellFormed() && 1 <= shell < NUM_TERMS && newTerm < NUM_TERMS && !shellsRunning[shell]
      modifies this
      ensures View() == StartShell(old(View()), shell, saved, next, newTerm)
    {
      schedArr := schedArr[shell - 1 := saved];
      termInService := shell;
      var started := RunShell(shell, saved.esp, saved.ebp);
      if !started {
        LoadContext(next, newTerm);
      }
    }

    /** pit_handler entered `depth` bytes down the kernel stack of the running process. */
    method PitHandler(depth: nat, frame: int)
      requires View().WellFormed() && ValidEntry(View(), depth)
      modifies this
      ensures View() == Tick(old(View()), depth, frame)
    {
      var tempSched := Context(esp0 - depth, frame, oteMb);
      var procNum := ProcessNumber(esp0 - depth);
      var currTerm := pcbs[procNum].term;
      var nextProcNum := GetNextProc(currTerm);
      var newTerm := if nextProcNum < NUM_TERMS then nextProcNum else pcbs[nextProcNum].term;
      assert newTerm == (currTerm + 1) % NUM_TERMS;
      SaveAndSwitch(tempSched, currTerm, nextProcNum, newTerm);
    }

    /** The part of pit_handler from the shell start-up tests on. */
    method SaveAndSwitch(tempSched: Context, currTerm: nat, next: nat, newTerm: nat)
      requires View().WellFormed() && currTerm < NUM_TERMS && newTerm < NUM_TERMS
      modifies this
      ensures View() == SwitchTask(old(View()), tempSched, currTerm, next, newTerm)
    {
      termInService := newTerm;
      if !shellsRunning[1] {
        StartShellOn(1, tempSched, next, newTerm);
      } else if !shellsRunning[2] {
        StartShellOn(2, tempSched, next, newTerm);
      } else {
        if !schedArrInit {
          InitShells();
          schedArr := schedArr[2 := tempSched];
        } else {
          schedArr := schedArr[currTerm := tempSched];
        }
        LoadContext(next, newTerm);
      }
    }

    // ---------------------------------------------------------------- runs

    /** One request to the kernel, or the user bringing a terminal to the display. */
    method Handle(img: seq<Byte>, request: Request)
      requires ValidPrograms(img) && ValidRequest(request)
      requires View().WellFormed() && Entered(View(), EventOf(img, request))
      modifies this
      ensures View() == Step(old(View()), EventOf(img, request))
    {
      if request.Command? {
        HandleCommand(img, request);
      } else {
        HandleOther(img, request);
      }
    }

    method HandleCommand(img: seq<Byte>, r: Request)
      requires ValidPrograms(img) && r.Command? && ValidRequest(r)
      requires View().WellFormed() && Entered(View(), EventOf(img, r))
      modifies this
      ensures View() == Step(old(View()), EventOf(img, r))
    {
      ghost var load := LoadOf(img, r.command, r.neighbour, r.stale);
      assert EventOf(img, r) == ExecuteCall(r.depth, r.frame, load);
      var _ := SysExecute(img, r.command, r.neighbour, r.stale, esp0 - r.depth, r.frame);
    }

    /** A request that names no program. */
    method HandleOther(img: seq<Byte>, request: Request)
      requires ValidPrograms(img) && !request.Command?
      requires View().WellFormed() && Entered(View(), EventOf(img, request))
      modifies this
      ensures View() == Step(old(View()), EventOf(img, request))
    {
      match request
      case Timer(depth, frame) => PitHandler(depth, frame);
      case Exit(depth) => SysHalt(depth);
      case Display(term) => curTerm := term;
    }

    /** A legal request extends the run that the kernel has carried out so far. */
    method HandleInRun(img: seq<Byte>, r: Request, ghost ss: seq<State>, ghost es: seq<Event>)
      returns (ghost ss': seq<State>, ghost es': seq<Event>)
      requires ValidPrograms(img) && ValidRequest(r)
      requires IsRun(ss, es) && View() == ss[|es|] && View().WellFormed()
      requires Entered(View(), EventOf(img, r)) && Legal(View(), EventOf(img, r))
      modifies this
      ensures View() == Step(old(View()), EventOf(img, r))
      ensures ss' == ss + [View()] && es' == es + [EventOf(img, r)] && IsRun(ss', es')
    {
      ghost var e := EventOf(img, r);
      Handle(img, r);
      RunExtended(ss, es, e, View());
      ss', es' := ss + [View()], es + [e];
    }

    /**
      Main result: carrying out any sequence of requests the scheduler is built for is a run of the
      state machine, so that everything proved of runs is proved of the kernel's own state.
     */
    method HandleAll(img: seq<Byte>, requests: seq<Request>) returns (ghost ss: seq<State>, ghost es: seq<Event>)
      requires ValidPrograms(img) && forall r | r in requests :: ValidRequest(r)
      requires Inv(View()) && LegalRun(View(), img, requests)
      modifies this
      ensures IsRun(ss, es) && IsProper(ss, es)
      ensures Carries(img, requests, es)
      ensures ss[0] == old(View()) && View() == ss[|es|] && Inv(View())
    {
      ss, es := [View()], [];
      for i := 0 to |requests|
        invariant IsRun(ss, es) && |es| == i && ss[0] == old(View()) && View() == ss[i]
        invariant Carries(img, requests[..i], es)
        invariant Inv(View()) && LegalRun(View(), img, requests[i..])
      {
        ghost var e := LegalNext(View(), img, requests, i);
        CarriesOn(img, requests, i, es);
        ss, es := HandleInRun(img, requests[i], ss, es);
      }
      RunIsProper(ss, es);
      assert requests[..|requests|] == requests;
    }

    /**
      Main result: so is everything since boot.  The first shell is executed at (callEsp, callEbp), the
      first three ticks start the others, and then come the requests the scheduler is built for.
     */
    method BootAndRun(callEsp: int, callEbp: int, img: seq<Byte>, requests: seq<Request>)
      returns (ghost ss: seq<State>, ghost es: seq<Event>)
      requires ValidPrograms(img) && forall r | r in requests :: ValidRequest(r)
      requires Booted(View()) && AllowedRun(Execute(View(), callEsp, callEbp, shellProgram), 0, img, requests)
      modifies this
      ensures IsBootRun(old(View()), callEsp, callEbp, ss, es)
      ensures Carries(img, requests, es)
      ensures View() == ss[|es|]
    {
      ghost var boot := View();
      FirstShell(callEsp, callEbp);
      ss, es := [View()], [];
      for i := 0 to |requests|
        invariant IsBootRun(boot, callEsp, callEbp, ss, es) && |es| == i && View() == ss[i] && View().WellFormed()
        invariant Carries(img, requests[..i], es)
        invariant AllowedRun(View(), Ticks(es, i), img, requests[i..])
      {
        ghost var e := AllowedNext(View(), Ticks(es, i), img, requests, i);
        Handle(img, requests[i]);
        BootRunExtended(boot, callEsp, callEbp, ss, es, e, View());
        CarriesOn(img, requests, i, es);
        ss, es := ss + [View()], es + [e];
      }
      assert requests[..|requests|] == requests;
    }

    /** The execute of the first shell at the end of boot. */
    method FirstShell(callEsp: int, callEbp: int)
      requires Booted(View())
      modifies this
      ensures View() == Execute(old(View()), callEsp, callEbp, shellProgram)
    {
      var slot := ReserveSlot();
      Launch(slot, shellProgram, callEsp, callEbp);
    }
  }

  datatype Request =
    | Timer(depth: nat, frame: int)
    | Command(depth: nat, frame: int, command: seq<Byte>, neighbour: Byte, stale: seq<Byte>)
    | Exit(depth: nat)
    | Display(term: nat)

  predicate ValidRequest(r: Request) {
    r.Command? ==> |r.command| >= READ_LIMIT && |r.stale| == HEADER_SIZE
  }

  /** The event enters the kernel where the request does, for the same purpose. */
  predicate AsRequested(r: Request, e: Event) {
    && (r.Timer? ==> e == TimerTick(r.depth, r.frame))
    && (r.Command? ==> e.ExecuteCall? && e.depth == r.depth && e.ebp == r.frame)
    && (r.Exit? ==> e == HaltCall(r.depth))
    && (r.Display? ==> e == Show(r.term))
  }

  /** The event of the state machine a request amounts to. */
  function EventOf(img: seq<Byte>, r: Request): Event
    requires |img| >= FOUR_KB && DirCount(img) <= MAX_DENTRIES && ValidRequest(r)
  {
    match r
    case Timer(depth, frame) => TimerTick(depth, frame)
    case Command(depth, frame, command, neighbour, stale) =>
      ExecuteCall(depth, frame, LoadOf(img, command, neighbour, stale))
    case Exit(depth) => HaltCall(depth)
    case Display(term) => Show(term)
  }

  /** The events are those of the requests, in order, each of the request's own kind and place. */
  ghost predicate Carries(img: seq<Byte>, requests: seq<Request>, es: seq<Event>)
    requires |img| >= FOUR_KB && DirCount(img) <= MAX_DENTRIES
  {
    && |es| == |requests| && (forall i | 0 <= i < |requests| :: ValidRequest(requests[i]))
    && forall i | 0 <= i < |requests| :: es[i] == EventOf(img, requests[i]) && AsRequested(requests[i], es[i])
  }

  lemma CarriesOn(img: seq<Byte>, requests: seq<Request>, i: nat, es: seq<Event>)
    requires |img| >= FOUR_KB && DirCount(img) <= MAX_DENTRIES
    requires i < |requests| && ValidRequest(requests[i]) && Carries(img, requests[..i], es)
    ensures Carries(img, requests[..i + 1], es + [EventOf(img, requests[i])])
  {
    var more := requests[..i + 1];
    assert forall k | 0 <= k < i :: more[k] == requests[..i][k];
  }

  /** Each request is legal in the state the earlier ones lead to. */
  ghost predicate LegalRun(s: State, img: seq<Byte>, requests: seq<Request>)
    requires ValidPrograms(img) && (forall r | r in requests :: ValidRequest(r)) && Inv(s)
    decreases |requests|
  {
    requests == [] ||
    (var e := EventOf(img, requests[0]);
     Legal(s, e) && (StepKeeps(s, e); LegalRun(Step(s, e), img, requests[1..])))
  }

  lemma LegalNext(s: State, img: seq<Byte>, requests: seq<Request>, i: nat) returns (e: Event)
    requires ValidPrograms(img) && (forall r | r in requests :: ValidRequest(r)) && Inv(s)
    requires i < |requests| && LegalRun(s, img, requests[i..])
    ensures e == EventOf(img, requests[i]) && Legal(s, e) && Entered(s, e)
    ensures Inv(Step(s, e)) && LegalRun(Step(s, e), img, requests[i + 1..])
  {
    e := EventOf(img, requests[i]);
    assert requests[i..][0] == requests[i] && requests[i..][1..] == requests[i + 1..];
    StepKeeps(s, e);
  }

  /** Each request can happen and is one of start-up until the third tick, and legal from then on. */
  ghost predicate AllowedRun(s: State, ticks: nat, img: seq<Byte>, requests: seq<Request>)
    requires ValidPrograms(img) && (forall r | r in requests :: ValidRequest(r)) && s.WellFormed()
    decreases |requests|
  {
    requests == [] ||
    (var e := EventOf(img, requests[0]);
     && Entered(s, e) && (if ticks < 3 then StartupEvent(e) else Legal(s, e))
     && AllowedRun(Step(s, e), ticks + if e.TimerTick? then 1 else 0, img, requests[1..]))
  }

  lemma AllowedNext(s: State, ticks: nat, img: seq<Byte>, requests: seq<Request>, i: nat) returns (e: Event)
    requires ValidPrograms(img) && (forall r | r in requests :: ValidRequest(r)) && s.WellFormed()
    requires i < |requests| && AllowedRun(s, ticks, img, requests[i..])
    ensures e == EventOf(img, requests[i]) && Entered(s, e)
    ensures if ticks < 3 then StartupEvent(e) else Legal(s, e)
    ensures AllowedRun(Step(s, e), ticks + if e.TimerTick? then 1 else 0, img, requests[i + 1..])
  {
    e := EventOf(img, requests[i]);
    assert requests[i..][0] == requests[i] && requests[i..][1..] == requests[i + 1..];
  }

  /** The file's first data block begins with the first three bytes of the ELF magic number. */
  ghost predicate BeginsAsElf(img: seq<Byte>, inode: nat) {
    HasInode(img, inode) && Content(img, inode, 1)[..3] == [0x7F, 0x45, 0x4C]
  }

  lemma HeaderIsContent(img: seq<Byte>, inode: nat, stale: seq<Byte>)
    requires HasInode(img, inode) && Length(img, inode) > 0 && |stale| >= 3
    ensures HeaderOf(img, inode, stale)[..3] == Content(img, inode, 1)[..3]
  {
    var h, c := HeaderOf(img, inode, stale), Content(img, inode, 1);
    ContentAt(img, inode, 1, 0);
    ContentAt(img, inode, 1, 1);
    ContentAt(img, inode, 1, 2);
    assert h[..3] == [c[0], c[1], c[2]] == c[..3];
  }

  /** `i` is the first entry with the name. */
  ghost predicate FirstNamed(img: seq<Byte>, i: nat, name: seq<Byte>)
    requires |img| >= FOUR_KB && DirCount(img) <= MAX_DENTRIES
  {
    i < DirCount(img) && Name(img, i) == name && forall j | 0 <= j < i :: Name(img, j) != name
  }

  lemma LoadOfCommand(img: seq<Byte>, name: seq<Byte>, arg: seq<Byte>, rest: seq<Byte>, neighbour: Byte,
                      stale: seq<Byte>)
    requires ValidPrograms(img) && |stale| >= 3
    requires |name| < MAX_FILENAME_LENGTH && SPACE !in name && NUL !in name
    requires |arg| <= KB_BUF_SIZE_MAX && NUL !in arg && |CommandLine(name, arg, rest)| >= READ_LIMIT
    ensures LoadOf(img, CommandLine(name, arg, rest), neighbour, stale).Program? <==>
            Lookup(img, name).Some? && IsExecutable(HeaderOf(img, InodeOf(Lookup(img, name).value), stale))
  {
    CommandLineParses(name, arg, rest, neighbour);
    CStringOfBuffer(name, neighbour);
  }

  lemma LoadsIff(img: seq<Byte>, name: seq<Byte>, arg: seq<Byte>, rest: seq<Byte>, neighbour: Byte, stale: seq<Byte>)
    requires ValidPrograms(img) && |stale| >= 3
    requires |name| < MAX_FILENAME_LENGTH && SPACE !in name && NUL !in name
    requires |arg| <= KB_BUF_SIZE_MAX && NUL !in arg && |CommandLine(name, arg, rest)| >= READ_LIMIT
    ensures LoadOf(img, CommandLine(name, arg, rest), neighbour, stale).Program? <==>
            exists i: nat | FirstNamed(img, i, name) ::
              var inode := InodeOf(Dentry(img, i));
              if Length(img, inode) > 0 then BeginsAsElf(img, inode) else stale[..3] == [0x7F, 0x45, 0x4C]
  {
    LoadOfCommand(img, name, arg, rest, neighbour, stale);
    var i := FindName(img, name, 0);
    assert forall j: nat | FirstNamed(img, j, name) :: j == i;
    if i < DirCount(img) {
      assert FirstNamed(img, i, name);
      var inode := InodeOf(Dentry(img, i));
      assert HasProgram(img, inode);
      MagicIff(img, inode, stale);
    }
  }

  lemma CStringOfBuffer(name: seq<Byte>, neighbour: Byte)
    requires |name| < MAX_FILENAME_LENGTH && NUL !in name
    ensures CString(NameBuffer(name, neighbour) + [NUL]) == name
  {
    var s := NameBuffer(name, neighbour) + [NUL];
    CLenIs(s, |name|);
    assert s[..|name|] == name;
  }

  lemma MagicIff(img: seq<Byte>, inode: nat, stale: seq<Byte>)
    requires HasInode(img, inode) && |stale| >= 3
    ensures IsExecutable(HeaderOf(img, inode, stale)) <==>
            if Length(img, inode) > 0 then BeginsAsElf(img, inode) else stale[..3] == [0x7F, 0x45, 0x4C]
  {
    var h := HeaderOf(img, inode, stale);
    assert h[..3] == [h[0], h[1], h[2]];
    if Length(img, inode) > 0 {
      HeaderIsContent(img, inode, stale);
    }
  }

  /**
    Main result: which commands start a program.  For every name of at most 31 bytes and argument of at most 128,
    execute starts a process exactly if a slot is free and the first entry with that name is a file whose first
    bytes are the magic number; an empty file is judged by what the header buffer held before.
   */
  lemma CommandStartsIff(s: State, img: seq<Byte>, name: seq<Byte>, arg: seq<Byte>, rest: seq<Byte>,
                         neighbour: Byte, stale: seq<Byte>)
    requires s.WellFormed() && ValidPrograms(img) && |stale| >= 3
    requires |name| < MAX_FILENAME_LENGTH && SPACE !in name && NUL !in name
    requires |arg| <= KB_BUF_SIZE_MAX && NUL !in arg && |CommandLine(name, arg, rest)| >= READ_LIMIT
    ensures Starts(s, LoadOf(img, CommandLine(name, arg, rest), neighbour, stale)) <==>
            && (exists p :: 0 <= p < 6 && s.procArr[p] == FREE)
            && exists i: nat | FirstNamed(img, i, name) ::
                 var inode := InodeOf(Dentry(img, i));
                 if Length(img, inode) > 0 then BeginsAsElf(img, inode) else stale[..3] == [0x7F, 0x45, 0x4C]
  {
    LoadsIff(img, name, arg, rest, neighbour, stale);
    assert s.FreeSlot() < MAX_PROCESSES ==> s.procArr[s.FreeSlot()] == FREE;
  }

  /**
    Main result: a program started with a command line finds its argument.  Whatever name of at
    most 31 bytes and argument of at most 128 bytes the command has, the PCB of the process that
    execute starts makes `getargs` deliver exactly that argument, or refuse if there is none or no room.
   */
  lemma StartedProgramFindsItsArgument(s: State, img: seq<Byte>, name: seq<Byte>, arg: seq<Byte>, rest: seq<Byte>,
                                       neighbour: Byte, stale: seq<Byte>, callEsp: int, callEbp: int, nbytes: nat)
    requires s.WellFormed() && |img| >= FOUR_KB && DirCount(img) <= MAX_DENTRIES && |stale| >= 3
    requires |name| < MAX_FILENAME_LENGTH && SPACE !in name && NUL !in name
    requires |arg| <= KB_BUF_SIZE_MAX && NUL !in arg
    requires |CommandLine(name, arg, rest)| >= READ_LIMIT
    requires Starts(s, LoadOf(img, CommandLine(name, arg, rest), neighbour, stale))
    ensures var r := Execute(s, callEsp, callEbp, LoadOf(img, CommandLine(name, arg, rest), neighbour, stale));
            && r.Running() == s.FreeSlot()
            && var pcb := r.pcbs[r.Running()];
               && |pcb.arg| == KB_BUF_SIZE_MAX
               && (GivesArgs(pcb.arg, pcb.argSize, nbytes) <==> 1 <= |arg| <= nbytes)
               && (|arg| <= nbytes ==> CString(pcb.arg[..Clamped(nbytes)] + [NUL]) == arg)
  {
    GetargsIff(name, arg, rest, neighbour, nbytes);
    CommandLineParses(name, arg, rest, neighbour);
    if |arg| <= nbytes {
      ArgInBuffer(arg, nbytes);
    }
    StackTellsProcess(StackBase(s.FreeSlot()), s.FreeSlot());
  }
}
