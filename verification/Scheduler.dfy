/**
  The invariant of the scheduler and the proof that each step keeps it: stack pointer, 128 MB
  mapping, tss.esp0 and saved contexts belong to the process they should, and every process was
  called by the one in the next higher slot of its terminal.  Whole runs are in `Runs`.
 */
module Scheduler {
  import opened Layout
  import opened Processes

  // ------------------------------------------------------------------ the invariant

  /** A context from which process `p` can be resumed. */
  predicate ContextOf(c: Context, p: int) {
    OnStack(c.esp, p) && c.oteMb == Mapping(p)
  }

  /**
    Root shells live in slots 0..2.  Every other process was called by the process in the next
    higher slot of its terminal, or by the terminal's shell if there is none.
   */
  ghost predicate Family(s: State)
    requires s.WellFormed()
  {
    && (forall t | 0 <= t < NUM_TERMS :: s.Live(t) && s.pcbs[t].term == t && s.shellsRunning[t])
    && (forall p | NUM_TERMS <= p < MAX_PROCESSES && s.Live(p) :: BornOf(s.pcbs[p], s.CallerOf(p)))
  }

  /** The PCB of a process that `c` executed. */
  predicate BornOf(pcb: Pcb, c: int) {
    pcb.parentPid == c && pcb.parentPhysAddr == Mapping(c) && OnStack(pcb.parentEsp, c)
  }

  /** The running process is the active one of the terminal in service, and the CPU state is its. */
  predicate RunsOn(s: State, t: nat)
    requires s.WellFormed()
  {
    && t < NUM_TERMS
    && s.Running() == s.ActiveOn(t)
    && OnStack(s.esp, s.Running())
    && s.oteMb == Mapping(s.Running())
    && s.esp0 == StackBase(s.Running())
  }

  ghost predicate Inv(s: State) {
    && s.WellFormed()
    && s.schedInit
    && Family(s)
    && RunsOn(s, s.inService)
    && forall t: nat | t < NUM_TERMS && t != s.inService :: ContextOf(s.sched[t], s.ActiveOn(t))
  }

  /** Kernel stacks are not overrun: an entry stays above the PCB at the bottom of the slot. */
  predicate Fits(depth: nat) {
    depth < EIGHT_KB - PCB_SIZE
  }

  /** The next process would be started on its caller's terminal and in a slot the scan reaches first. */
  predicate GoodPlace(s: State)
    requires s.WellFormed()
  {
    s.displayed == s.inService && (s.Running() < NUM_TERMS || s.FreeSlot() < s.Running())
  }

  /**
    Events the scheduler is built for: kernel stacks not overrun; a process executed in a good
    place; shells 1 and 2 do not halt.
   */
  predicate Legal(s: State, e: Event)
    requires s.WellFormed()
  {
    match e
    case TimerTick(depth, _) => Fits(depth)
    case ExecuteCall(depth, _, load) => Fits(depth) && (Starts(s, load) ==> GoodPlace(s))
    case HaltCall(depth) => Fits(depth) && (s.Running() == 0 || s.Running() >= NUM_TERMS)
    case Show(t) => t < NUM_TERMS
  }

  /** Entering the kernel while `p` runs puts the stack pointer on the stack of `p`. */
  lemma EntryIsRunning(s: State, depth: nat)
    requires Inv(s) && Fits(depth)
    ensures OnStack(s.esp0 - depth, s.Running())
    ensures ProcessNumber(s.esp0 - depth) == s.Running() == s.ActiveOn(s.inService)
    ensures ValidEntry(s, depth)
    ensures s.Live(s.Running()) && s.pcbs[s.Running()].term == s.inService
  {
  }

  /** If only the process table entries of one slot change, terminals it does not serve keep their processes. */
  lemma LowestStable(s: State, r: State, slot: nat, low: nat, t: nat)
    requires s.WellFormed() && r.WellFormed() && slot < MAX_PROCESSES && t < NUM_TERMS
    requires forall p | 0 <= p < MAX_PROCESSES && p != slot :: r.procArr[p] == s.procArr[p] && r.pcbs[p] == s.pcbs[p]
    requires slot < low || (!s.ChildOn(slot, t) && !r.ChildOn(slot, t))
    ensures r.LowestFrom(low, t) == s.LowestFrom(low, t)
  {
  }

  // ------------------------------------------------------------------ each step keeps it

  /** A tick saves the preempted context and serves the active process of the next terminal. */
  lemma TickIs(s: State, depth: nat, ebp: int)
    requires Inv(s) && Fits(depth)
    ensures ValidEntry(s, depth)
    ensures var t := (s.inService + 1) % NUM_TERMS;
            Tick(s, depth, ebp) ==
            Dispatch(s.(sched := s.sched[s.inService := Context(s.esp0 - depth, ebp, s.oteMb)]), s.ActiveOn(t), t)
  {
    EntryIsRunning(s, depth);
    assert s.pcbs[ProcessNumber(s.esp0 - depth)].term == s.inService;
    var t := (s.inService + 1) % NUM_TERMS;
    SwitchTaskIs(s, Context(s.esp0 - depth, ebp, s.oteMb), s.inService, s.ActiveOn(t), t);
  }

  lemma SwitchTaskIs(s: State, saved: Context, currTerm: nat, next: nat, newTerm: nat)
    requires s.WellFormed() && s.schedInit && currTerm < NUM_TERMS && newTerm < NUM_TERMS
    requires s.shellsRunning[1] && s.shellsRunning[2]
    ensures SwitchTask(s, saved, currTerm, next, newTerm) ==
            Dispatch(s.(sched := s.sched[currTerm := saved]), next, newTerm)
  {
  }

  lemma DispatchKeeps(s: State, saved: Context, t: nat)
    requires Inv(s) && t < NUM_TERMS && t != s.inService && ContextOf(saved, s.Running())
    ensures Inv(Dispatch(s.(sched := s.sched[s.inService := saved]), s.ActiveOn(t), t))
  {
    var m := s.(sched := s.sched[s.inService := saved]);
    var r := Dispatch(m, s.ActiveOn(t), t);
    SameTable(s, r);
    StackTellsProcess(r.esp, s.ActiveOn(t));
  }

  /** The family and the active processes depend on the process table alone. */
  lemma SameTable(s: State, r: State)
    requires s.WellFormed() && r.WellFormed() && Family(s)
    requires r.procArr == s.procArr && r.pcbs == s.pcbs && r.shellsRunning == s.shellsRunning
    ensures Family(r)
    ensures forall t: nat | t < NUM_TERMS :: r.ActiveOn(t) == s.ActiveOn(t)
  {
  }

  lemma TickKeeps(s: State, depth: nat, ebp: int)
    requires Inv(s) && Fits(depth)
    ensures ValidEntry(s, depth) && Inv(Tick(s, depth, ebp))
  {
    EntryIsRunning(s, depth);
    TickIs(s, depth, ebp);
    DispatchKeeps(s, Context(s.esp0 - depth, ebp, s.oteMb), (s.inService + 1) % NUM_TERMS);
  }

  /** A process started in slot `slot` by the active process of `t`, below every process of `t`. */
  lemma JoinKeepsFamily(s: State, r: State, slot: nat, t: nat)
    requires s.WellFormed() && Family(s) && t < NUM_TERMS && NUM_TERMS <= slot < MAX_PROCESSES && !s.Live(slot)
    requires s.ActiveOn(t) < NUM_TERMS || slot < s.ActiveOn(t)
    requires r.WellFormed() && r.procArr == s.procArr[slot := RUNNING] && r.shellsRunning == s.shellsRunning
    requires r.pcbs == s.pcbs[slot := r.pcbs[slot]] && r.pcbs[slot].term == t
    requires BornOf(r.pcbs[slot], s.ActiveOn(t))
    ensures Family(r) && r.ActiveOn(t) == slot
  {
    LowestStable(s, r, slot, slot + 1, t);
    assert s.LowestFrom(slot + 1, t) == s.ActiveOn(t);
    forall p | NUM_TERMS <= p < MAX_PROCESSES && r.Live(p)
      ensures BornOf(r.pcbs[p], r.CallerOf(p))
    {
      if p != slot {
        assert s.Live(p);
        LowestStable(s, r, slot, p + 1, s.pcbs[p].term);
      }
    }
  }

  lemma ExecuteKeeps(s: State, depth: nat, ebp: int, load: Load)
    requires Inv(s) && Fits(depth)
    requires Starts(s, load) ==> GoodPlace(s)
    ensures Inv(Execute(s, s.esp0 - depth, ebp, load))
    ensures Starts(s, load) ==> Execute(s, s.esp0 - depth, ebp, load).Running() == s.FreeSlot()
  {
    EntryIsRunning(s, depth);
    if Starts(s, load) {
      var r, slot := Execute(s, s.esp0 - depth, ebp, load), s.FreeSlot();
      assert s.Live(0) && s.Live(1) && s.Live(2) && !s.Live(slot);
      StackTellsProcess(s.esp0 - depth, s.Running());
      JoinKeepsFamily(s, r, slot, s.inService);
      StackTellsProcess(r.esp, slot);
      OthersKeepContexts(s, r, slot);
    }
  }

  /** A change confined to one slot of the terminal in service leaves the other terminals' contexts good. */
  lemma OthersKeepContexts(s: State, r: State, slot: nat)
    requires Inv(s) && r.WellFormed() && slot < MAX_PROCESSES && r.sched == s.sched && r.inService == s.inService
    requires forall p | 0 <= p < MAX_PROCESSES && p != slot :: r.procArr[p] == s.procArr[p] && r.pcbs[p] == s.pcbs[p]
    requires r.pcbs[slot].term == s.inService && (s.Live(slot) ==> s.pcbs[slot].term == s.inService)
    ensures forall t: nat | t < NUM_TERMS && t != r.inService :: ContextOf(r.sched[t], r.ActiveOn(t))
  {
    forall t: nat | t < NUM_TERMS && t != s.inService
      ensures ContextOf(r.sched[t], r.ActiveOn(t))
    {
      LowestStable(s, r, slot, NUM_TERMS, t);
    }
  }

  /** The lowest process of `t` leaves: its caller becomes the active one. */
  lemma LeaveKeepsFamily(s: State, r: State, slot: nat, t: nat)
    requires s.WellFormed() && Family(s) && t < NUM_TERMS && NUM_TERMS <= slot == s.ActiveOn(t)
    requires r.WellFormed() && r.procArr == s.procArr[slot := FREE]
    requires r.pcbs == s.pcbs && r.shellsRunning == s.shellsRunning
    ensures Family(r) && r.ActiveOn(t) == s.CallerOf(slot)
    ensures BornOf(s.pcbs[slot], s.CallerOf(slot))
  {
    assert s.ChildOn(slot, t);
    LowestStable(s, r, slot, slot + 1, t);
    assert r.LowestFrom(slot + 1, t) == r.ActiveOn(t);
    forall p | NUM_TERMS <= p < MAX_PROCESSES && r.Live(p)
      ensures BornOf(r.pcbs[p], r.CallerOf(p))
    {
      assert p != slot && s.Live(p);
      LowestStable(s, r, slot, p + 1, s.pcbs[p].term);
    }
  }

  lemma HaltKeeps(s: State, depth: nat)
    requires Inv(s) && Fits(depth) && (s.Running() == 0 || s.Running() >= NUM_TERMS)
    ensures ValidEntry(s, depth) && Inv(Halt(s, depth))
  {
    EntryIsRunning(s, depth);
    if s.Running() != 0 {
      var r, p := Halt(s, depth), s.Running();
      LeaveKeepsFamily(s, r, p, s.inService);
      StackTellsProcess(r.esp, s.CallerOf(p));
      OthersKeepContexts(s, r, p);
    }
  }

  lemma ShowKeeps(s: State, t: nat)
    requires Inv(s) && t < NUM_TERMS
    ensures Inv(s.(displayed := t))
  {
    SameTable(s, s.(displayed := t));
  }

  /** Every legal event can happen: the kernel is entered on a process' stack. */
  lemma LegalIsEntered(s: State, e: Event)
    requires Inv(s) && Legal(s, e)
    ensures Entered(s, e)
  {
  }

  lemma StepKeeps(s: State, e: Event)
    requires Inv(s) && Legal(s, e)
    ensures Entered(s, e) && Inv(Step(s, e))
  {
    LegalIsEntered(s, e);
    var r := Step(s, e);
    match e
    case TimerTick(depth, ebp) =>
      assert r == Tick(s, depth, ebp);
      TickKeeps(s, depth, ebp);
    case ExecuteCall(depth, ebp, load) =>
      assert r == Execute(s, s.esp0 - depth, ebp, load);
      ExecuteKeeps(s, depth, ebp, load);
    case HaltCall(depth) =>
      assert r == Halt(s, depth);
      HaltKeeps(s, depth);
    case Show(t) =>
      ShowKeeps(s, t);
  }
}
