/**
  Processes and the round-robin scheduler as a state machine.  A process is the slot its
  kernel stack lies in; the timer, `execute` and `halt` move the stack pointer, the 128 MB
  mapping and tss.esp0 together, and the invariant says that they always agree.
 */
module Processes {
  import opened Bytes
  import opened Layout

  const MAX_PROCESSES: nat := 6
  const FREE: int := 0
  const RUNNING: int := 1

  const EIGHT_KB: int := 0x2000
  const FOUR_MB: int := 0x400000
  const EIGHT_MB: int := 0x800000          // bottom of the kernel stacks, and first program page
  const PCB_SIZE: int := 292
  const PAGE_FLAGS: int := 0x87            // RW | SET_4MB | USER | PRESENT

  // ------------------------------------------------------------------ addresses

  /** get_process_number: which 8 KB slot below 8 MB a stack pointer lies in. */
  function ProcessNumber(esp: int): int {
    (EIGHT_MB - esp + 1) / EIGHT_KB
  }

  function PcbLoc(p: int): int {
    EIGHT_MB - EIGHT_KB * (p + 1)
  }

  /** The value of tss.esp0 while `p` runs. */
  function StackBase(p: int): int {
    EIGHT_MB - EIGHT_KB * p - 1
  }

  /** The 4 MB page of process `p`, and the page directory entry that maps it. */
  function PhysicalPage(p: int): int {
    EIGHT_MB + p * FOUR_MB
  }

  function Mapping(p: int): int {
    PhysicalPage(p) + PAGE_FLAGS
  }

  /** A stack pointer inside the slot of `p`, above its PCB. */
  predicate OnStack(esp: int, p: int) {
    PcbLoc(p) + PCB_SIZE <= esp <= StackBase(p)
  }

  /** The handlers recover the running process from nothing but the stack pointer. */
  lemma StackTellsProcess(esp: int, p: int)
    requires OnStack(esp, p)
    ensures ProcessNumber(esp) == p
  {
  }

  // ------------------------------------------------------------------ state

  /** What the scheduler saves of a preempted process. */
  datatype Context = Context(esp: int, ebp: int, oteMb: int)

  datatype Pcb = Pcb(parentPid: int, parentPhysAddr: int, parentEsp: int, parentEbp: int, term: nat,
                     arg: seq<Byte>, argSize: nat)

  datatype State = State(
    procArr: seq<int>,
    pcbs: seq<Pcb>,
    oteMb: int,                 // page_directory entry of the 128 MB page
    esp0: int,                  // tss.esp0
    sched: seq<Context>,
    shellsRunning: seq<bool>,
    schedInit: bool,
    inService: nat,
    displayed: nat,
    shell: Load,                // what the command "shell" loads
    esp: int,                   // kernel stack pointer of the process that runs
    ebp: int)
  {
    predicate WellFormed() {
      && |procArr| == |pcbs| == MAX_PROCESSES
      && |sched| == |shellsRunning| == NUM_TERMS
      && displayed < NUM_TERMS
      && forall p | 0 <= p < MAX_PROCESSES :: pcbs[p].term < NUM_TERMS
    }

    function Running(): int {
      ProcessNumber(esp)
    }

    predicate Live(p: int)
      requires WellFormed()
    {
      0 <= p < MAX_PROCESSES && procArr[p] != FREE
    }

    predicate ChildOn(p: int, t: nat)
      requires WellFormed()
    {
      NUM_TERMS <= p < MAX_PROCESSES && Live(p) && pcbs[p].term == t
    }

    /** Terminal `t`'s live process in the lowest slot from `low` on, or its shell. */
    function LowestFrom(low: nat, t: nat): (p: nat)
      requires WellFormed() && t < NUM_TERMS
      ensures p < MAX_PROCESSES
      ensures p == t || (low <= p && ChildOn(p, t))
      ensures forall q | low <= q && ChildOn(q, t) :: t != p <= q
    {
      if low <= 3 && ChildOn(3, t) then 3
      else if low <= 4 && ChildOn(4, t) then 4
      else if low <= 5 && ChildOn(5, t) then 5
      else t
    }

    /** The process that should run on terminal `t`. */
    function ActiveOn(t: nat): (p: nat)
      requires WellFormed() && t < NUM_TERMS
    {
      LowestFrom(NUM_TERMS, t)
    }

    /** The process that called execute for the process in slot `p`. */
    function CallerOf(p: nat): (c: nat)
      requires WellFormed() && NUM_TERMS <= p < MAX_PROCESSES
    {
      LowestFrom(p + 1, pcbs[p].term)
    }

    /** Lowest free slot, or MAX_PROCESSES. */
    function FreeSlot(): (p: nat)
      requires WellFormed()
      ensures p <= MAX_PROCESSES
      ensures p < MAX_PROCESSES ==> procArr[p] == FREE
      ensures forall q | 0 <= q < p :: procArr[q] != FREE
    {
      FirstFree(0)
    }

    function FirstFree(from: nat): (p: nat)
      requires WellFormed() && from <= MAX_PROCESSES
      ensures from <= p <= MAX_PROCESSES
      ensures p < MAX_PROCESSES ==> procArr[p] == FREE
      ensures forall q | from <= q < p :: procArr[q] != FREE
      decreases MAX_PROCESSES - from
    {
      if from == MAX_PROCESSES || procArr[from] == FREE then from else FirstFree(from + 1)
    }
  }

  // ------------------------------------------------------------------ steps

  /** What execute makes of its command: nothing runnable, or a program and its argument. */
  datatype Load = Unloadable | Program(arg: seq<Byte>, argSize: nat)

  predicate Starts(s: State, load: Load)
    requires s.WellFormed()
  {
    s.FreeSlot() < MAX_PROCESSES && load.Program?
  }

  /** sys_execute called with the kernel stack at (esp, ebp): the lowest free slot becomes the running process. */
  function Execute(s: State, esp: int, ebp: int, load: Load): (r: State)
    requires s.WellFormed()
    ensures r.WellFormed()
  {
    if !Starts(s, load) then s
    else
      var slot := s.FreeSlot();
      var pcb := Pcb(ProcessNumber(esp), s.oteMb, esp, ebp, s.displayed, load.arg, load.argSize);
      s.(procArr := s.procArr[slot := RUNNING], pcbs := s.pcbs[slot := pcb], oteMb := Mapping(slot),
         esp0 := StackBase(slot), esp := StackBase(slot), ebp := 0)
  }

  predicate ValidEntry(s: State, depth: nat)
    requires s.WellFormed()
  {
    0 <= ProcessNumber(s.esp0 - depth) < MAX_PROCESSES
  }

  /** sys_halt entered `depth` bytes down the kernel stack. */
  function Halt(s: State, depth: nat): (r: State)
    requires s.WellFormed() && ValidEntry(s, depth)
    ensures r.WellFormed()
  {
    var p := ProcessNumber(s.esp0 - depth);
    if p == 0 then s
    else
      var pcb := s.pcbs[p];
      s.(procArr := s.procArr[p := FREE], oteMb := pcb.parentPhysAddr, esp0 := StackBase(pcb.parentPid),
         esp := pcb.parentEsp, ebp := pcb.parentEbp)
  }

  function InitShellPcb(base: Pcb, shell: Pcb, t: nat): Pcb {
    shell.(parentPid := base.parentPid, parentPhysAddr := base.parentPhysAddr, parentEsp := base.parentEsp,
           parentEbp := base.parentEbp, term := t)
  }

  function InitShellPcbs(pcbs: seq<Pcb>): (r: seq<Pcb>)
    requires |pcbs| == MAX_PROCESSES
    ensures |r| == MAX_PROCESSES
  {
    pcbs[1 := InitShellPcb(pcbs[0], pcbs[1], 1)][2 := InitShellPcb(pcbs[0], pcbs[2], 2)]
  }

  /** The end of pit_handler: load the context saved for terminal `t`, whose process is `next`. */
  function Dispatch(s: State, next: nat, t: nat): (r: State)
    requires s.WellFormed() && t < NUM_TERMS
    ensures r.WellFormed()
  {
    s.(esp0 := StackBase(next), oteMb := s.sched[t].oteMb, inService := t, esp := s.sched[t].esp, ebp := s.sched[t].ebp)
  }

  /** The branch that starts the shell of a terminal whose shell does not run yet. */
  function StartShell(s: State, shell: nat, saved: Context, next: nat, newTerm: nat): (r: State)
    requires s.WellFormed() && 1 <= shell < NUM_TERMS && newTerm < NUM_TERMS
    ensures r.WellFormed()
  {
    var ready := s.(sched := s.sched[shell - 1 := saved], inService := shell,
                    shellsRunning := s.shellsRunning[shell := true]);
    if Starts(ready, s.shell) then Execute(ready, saved.esp, saved.ebp, s.shell)
    else Dispatch(ready, next, newTerm)
  }

  /** pit_handler, once the preempted context is saved and the next process chosen. */
  function SwitchTask(s: State, saved: Context, currTerm: nat, next: nat, newTerm: nat): (r: State)
    requires s.WellFormed() && currTerm < NUM_TERMS && newTerm < NUM_TERMS
    ensures r.WellFormed()
  {
    if !s.shellsRunning[1] then StartShell(s, 1, saved, next, newTerm)
    else if !s.shellsRunning[2] then StartShell(s, 2, saved, next, newTerm)
    else if !s.schedInit then
      Dispatch(s.(pcbs := InitShellPcbs(s.pcbs), schedInit := true, sched := s.sched[2 := saved]), next, newTerm)
    else
      Dispatch(s.(sched := s.sched[currTerm := saved]), next, newTerm)
  }

  /** pit_handler entered `depth` bytes down the kernel stack with frame pointer `ebp`. */
  function Tick(s: State, depth: nat, ebp: int): (r: State)
    requires s.WellFormed() && ValidEntry(s, depth)
    ensures r.WellFormed()
  {
    var currTerm := s.pcbs[ProcessNumber(s.esp0 - depth)].term;
    var newTerm := (currTerm + 1) % NUM_TERMS;
    SwitchTask(s, Context(s.esp0 - depth, ebp, s.oteMb), currTerm, s.ActiveOn(newTerm), newTerm)
  }

  datatype Event =
    | TimerTick(depth: nat, ebp: int)
    | ExecuteCall(depth: nat, ebp: int, load: Load)
    | HaltCall(depth: nat)
    | Show(term: nat)                       // the user brings a terminal to the display

  function Step(s: State, e: Event): (r: State)
    requires s.WellFormed() && Entered(s, e)
    ensures r.WellFormed()
  {
    match e
    case TimerTick(depth, ebp) => Tick(s, depth, ebp)
    case ExecuteCall(depth, ebp, load) => Execute(s, s.esp0 - depth, ebp, load)
    case HaltCall(depth) => Halt(s, depth)
    case Show(t) => s.(displayed := t)
  }

  /** The event can happen at all: the kernel is entered on a process' stack, the terminal exists. */
  predicate Entered(s: State, e: Event)
    requires s.WellFormed()
  {
    match e
    case TimerTick(depth, _) => ValidEntry(s, depth)
    case ExecuteCall(depth, _, _) => ValidEntry(s, depth)
    case HaltCall(depth) => ValidEntry(s, depth)
    case Show(t) => t < NUM_TERMS
  }
}
