/**
  Results about whole runs of the scheduler: the three-tick start-up establishes the
  invariant, and every later run keeps it, serves the terminals in turn, resumes each process
  exactly where it was preempted, and gives slots back as they were.  The last part gives the
  exact conditions under which execute and halt keep the invariant, and what happens otherwise.
 */
module Runs {
  import opened Layout
  import opened Processes
  import opened Scheduler

  // ------------------------------------------------------------------ histories

  ghost predicate Happens(ss: seq<State>, es: seq<Event>, i: nat)
    requires |ss| == |es| + 1 && i < |es|
  {
    ss[i].WellFormed() && Entered(ss[i], es[i]) && ss[i + 1] == Step(ss[i], es[i])
  }

  /** The states passed through and the events between them, whatever these are. */
  ghost predicate IsHistory(ss: seq<State>, es: seq<Event>) {
    && |ss| == |es| + 1
    && forall i {:trigger Happens(ss, es, i)} | 0 <= i < |es| :: Happens(ss, es, i)
  }

  function Ticks(es: seq<Event>, i: nat): nat
    requires i <= |es|
  {
    if i == 0 then 0 else Ticks(es, i - 1) + if es[i - 1].TimerTick? then 1 else 0
  }

  // ------------------------------------------------------------------ start-up

  /** The kernel before its first execute: no process, and only shell 0 marked as running. */
  predicate Booted(s: State) {
    && s.WellFormed()
    && (forall p | 0 <= p < MAX_PROCESSES :: s.procArr[p] == FREE)
    && s.shellsRunning == [true, false, false]
    && !s.schedInit && s.inService == 0 && s.displayed == 0
    && s.shell.Program?
  }

  /** The first `n` shells have been started, the last of them runs, the others are saved. */
  ghost predicate Started(s: State, n: nat) {
    && s.WellFormed() && 1 <= n <= NUM_TERMS
    && (forall p | 0 <= p < MAX_PROCESSES :: s.procArr[p] == if p < n then RUNNING else FREE)
    && (forall t | 0 <= t < NUM_TERMS :: s.shellsRunning[t] == (t < n))
    && !s.schedInit && s.inService == n - 1 && s.pcbs[0].term == 0
    && s.shell.Program?
    && OnStack(s.esp, n - 1) && s.oteMb == Mapping(n - 1) && s.esp0 == StackBase(n - 1)
    && forall t | 0 <= t < n - 1 :: ContextOf(s.sched[t], t)
  }

  lemma BootStarts(s: State, esp: int, ebp: int)
    requires Booted(s)
    ensures var r := Execute(s, esp, ebp, s.shell);
            && Started(r, 1) && r.pcbs[0].parentPid == ProcessNumber(esp)
            && r.pcbs[0].parentEsp == esp && r.pcbs[0].parentPhysAddr == s.oteMb
  {
  }

  lemma NextShellStarts(s: State, depth: nat, ebp: int)
    requires Started(s, 1) || Started(s, 2)
    requires Fits(depth)
    ensures ValidEntry(s, depth)
    ensures var r := Tick(s, depth, ebp);
            && Started(r, s.inService + 2)
            && r.pcbs == s.pcbs[s.inService + 1 := r.pcbs[s.inService + 1]]
            && r.pcbs[s.inService + 1].term == s.displayed
            && r.displayed == s.displayed
  {
  }

  /** Shells 1 and 2 are given the parent data of shell 0. */
  predicate ShellParents(s: State)
    requires s.WellFormed()
  {
    forall k | 1 <= k < NUM_TERMS ::
      && s.pcbs[k].parentPid == s.pcbs[0].parentPid && s.pcbs[k].parentPhysAddr == s.pcbs[0].parentPhysAddr
      && s.pcbs[k].parentEsp == s.pcbs[0].parentEsp && s.pcbs[k].parentEbp == s.pcbs[0].parentEbp
  }

  /** The third tick: the PCBs are told apart and round-robin begins, after shell 2's first terminal. */
  lemma RoundRobinStarts(s: State, depth: nat, ebp: int)
    requires Started(s, 3) && Fits(depth)
    ensures ValidEntry(s, depth)
    ensures var r := Tick(s, depth, ebp);
            && Inv(r) && ShellParents(r)
            && r.pcbs[0] == s.pcbs[0] && r.procArr == s.procArr && r.displayed == s.displayed
            && r.inService == (s.pcbs[2].term + 1) % NUM_TERMS
  {
  }

  predicate StartupEvent(e: Event) {
    e.Show? || (e.TimerTick? && Fits(e.depth))
  }

  /** The first shell is executed at (esp, ebp); then the timer ticks for the third time. */
  ghost predicate IsStartup(boot: State, esp: int, ebp: int, ss: seq<State>, es: seq<Event>) {
    && Booted(boot) && IsHistory(ss, es) && ss[0] == Execute(boot, esp, ebp, boot.shell)
    && (forall e | e in es :: StartupEvent(e))
    && 0 < |es| && es[|es| - 1].TimerTick? && Ticks(es, |es|) == 3
  }

  lemma {:induction false} TicksGrow(es: seq<Event>, i: nat, j: nat)
    requires i <= j <= |es|
    ensures Ticks(es, i) <= Ticks(es, j)
  {
    if i < j {
      TicksGrow(es, i, j - 1);
    }
  }

  /** What is known while the first shells are being started; `k` is the second tick. */
  ghost predicate StartingAt(boot: State, esp: int, s: State, n: nat, second: nat) {
    && 1 <= n <= NUM_TERMS && Started(s, n)
    && s.pcbs[0].parentPid == ProcessNumber(esp) && s.pcbs[0].parentEsp == esp && s.pcbs[0].parentPhysAddr == boot.oteMb
    && (n == NUM_TERMS ==> s.pcbs[2].term == second)
  }

  lemma StartingStep(boot: State, esp: int, s: State, e: Event, n: nat, second: nat)
    requires StartingAt(boot, esp, s, n, second) && Entered(s, e)
    requires StartupEvent(e) && (n < NUM_TERMS || e.Show?)
    requires e.TimerTick? && n == 2 ==> second == s.displayed
    ensures StartingAt(boot, esp, Step(s, e), if e.TimerTick? then n + 1 else n, second)
  {
    if e.TimerTick? {
      NextShellStarts(s, e.depth, e.ebp);
    }
  }

  lemma {:induction false} SecondTick(es: seq<Event>, k: nat, i: nat)
    requires k < |es| && es[k].TimerTick? && Ticks(es, k) == 1
    requires i < |es| && es[i].TimerTick? && Ticks(es, i) == 1
    ensures i == k
  {
    if i < k {
      TicksGrow(es, i + 1, k);
    } else if k < i {
      TicksGrow(es, k + 1, i);
    }
  }

  lemma {:induction false} StartingUp(boot: State, esp: int, ebp: int, ss: seq<State>, es: seq<Event>, k: nat, i: nat)
    requires IsStartup(boot, esp, ebp, ss, es) && i < |es|
    requires k < |es| && es[k].TimerTick? && Ticks(es, k) == 1
    ensures Ticks(es, i) <= 2 && StartingAt(boot, esp, ss[i], Ticks(es, i) + 1, ss[k].displayed)
  {
    TicksGrow(es, i, |es| - 1);
    if i == 0 {
      BootStarts(boot, esp, ebp);
    } else {
      StartingUp(boot, esp, ebp, ss, es, k, i - 1);
      assert Happens(ss, es, i - 1) && es[i - 1] in es;
      if es[i - 1].TimerTick? && Ticks(es, i - 1) == 1 {
        SecondTick(es, k, i - 1);
      }
      StartingStep(boot, esp, ss[i - 1], es[i - 1], Ticks(es, i - 1) + 1, ss[k].displayed);
    }
  }

  // ------------------------------------------------------------------ runs

  ghost predicate StepAt(ss: seq<State>, es: seq<Event>, i: nat)
    requires |ss| == |es| + 1 && i < |es|
  {
    Happens(ss, es, i) && Legal(ss[i], es[i])
  }

  /** A run: a history of legal events from a state that satisfies the invariant. */
  ghost predicate IsRun(ss: seq<State>, es: seq<Event>) {
    && |ss| == |es| + 1
    && Inv(ss[0])
    && forall i {:trigger StepAt(ss, es, i)} | 0 <= i < |es| :: StepAt(ss, es, i)
  }

  /** Main result: every state of every run satisfies the invariant. */
  lemma {:induction false} RunKeeps(ss: seq<State>, es: seq<Event>, i: nat)
    requires IsRun(ss, es) && i < |ss|
    ensures Inv(ss[i])
  {
    if i > 0 {
      RunKeeps(ss, es, i - 1);
      assert StepAt(ss, es, i - 1);
      StepKeeps(ss[i - 1], es[i - 1]);
    }
  }

  /**
    What the invariant says of the CPU: mapping and kernel stack are the running process' own, and
    it is the one its terminal's other processes wait for: no process of the terminal has it as
    its caller, and every other one is the caller of a process in a lower slot.
   */
  lemma ContextIntegrity(ss: seq<State>, es: seq<Event>, i: nat)
    requires IsRun(ss, es) && i < |ss|
    ensures ss[i].WellFormed() && ss[i].inService < NUM_TERMS
    ensures var s := ss[i]; var p := s.Running();
            s.Live(p) && s.oteMb == Mapping(p) && s.esp0 == StackBase(p) && s.pcbs[p].term == s.inService
    ensures forall q: int | ss[i].Live(q) && ss[i].pcbs[q].term == ss[i].inService ::
              (exists c | NUM_TERMS <= c < MAX_PROCESSES ::
                 ss[i].Live(c) && ss[i].pcbs[c].term == ss[i].inService && ss[i].pcbs[c].parentPid == q)
              <==> q != ss[i].Running()
  {
    RunKeeps(ss, es, i);
    var s := ss[i];
    forall q: int | s.Live(q) && s.pcbs[q].term == s.inService
      ensures (exists c | NUM_TERMS <= c < MAX_PROCESSES ::
                 s.Live(c) && s.pcbs[c].term == s.inService && s.pcbs[c].parentPid == q) <==> q != s.Running()
    {
      Waits(s, s.inService, q);
    }
  }

  /** A process of terminal `t` waits in execute for another one exactly if it is not the active one. */
  lemma Waits(s: State, t: nat, q: int)
    requires s.WellFormed() && Family(s) && t < NUM_TERMS && s.Live(q) && s.pcbs[q].term == t
    ensures (exists c | NUM_TERMS <= c < MAX_PROCESSES :: s.Live(c) && s.pcbs[c].term == t && s.pcbs[c].parentPid == q)
            <==> q != s.ActiveOn(t)
  {
    if q != s.ActiveOn(t) {
      var c := HighestBelow(s, t, if q < NUM_TERMS then MAX_PROCESSES else q);
      assert s.CallerOf(c) == q;
    }
  }

  /** The child of terminal `t` in the highest slot below `high`. */
  function HighestBelow(s: State, t: nat, high: int): (c: int)
    requires s.WellFormed() && t < NUM_TERMS && high <= MAX_PROCESSES
    requires NUM_TERMS <= s.ActiveOn(t) < high
    ensures s.ChildOn(c, t) && c < high
    ensures forall q | c < q < high :: !s.ChildOn(q, t)
  {
    if s.ChildOn(high - 1, t) then high - 1 else HighestBelow(s, t, high - 1)
  }

  // ------------------------------------------------------------------ runs from boot

  /** A step of the kernel's life: start-up, or a legal event after it. */
  ghost predicate Proper(s: State, e: Event) {
    || (Inv(s) && Legal(s, e))
    || ((Started(s, 1) || Started(s, 2) || Started(s, 3)) && StartupEvent(e))
  }

  ghost predicate ProperAt(ss: seq<State>, es: seq<Event>, i: nat)
    requires |ss| == |es| + 1 && i < |es|
  {
    Happens(ss, es, i) && Proper(ss[i], es[i])
  }

  ghost predicate IsProper(ss: seq<State>, es: seq<Event>) {
    && |ss| == |es| + 1
    && forall i {:trigger ProperAt(ss, es, i)} | 0 <= i < |es| :: ProperAt(ss, es, i)
  }

  /** The event is one of start-up until the third tick, and legal from then on. */
  predicate AllowedAt(ss: seq<State>, es: seq<Event>, i: nat)
    requires |ss| == |es| + 1 && i < |es|
  {
    if Ticks(es, i) < 3 then StartupEvent(es[i]) else ss[i].WellFormed() && Legal(ss[i], es[i])
  }

  /** A whole run from boot: the first shell is executed at (esp, ebp), and everything else follows. */
  ghost predicate IsBootRun(boot: State, esp: int, ebp: int, ss: seq<State>, es: seq<Event>) {
    && Booted(boot) && IsHistory(ss, es) && ss[0] == Execute(boot, esp, ebp, boot.shell)
    && forall i {:trigger AllowedAt(ss, es, i)} | 0 <= i < |es| :: AllowedAt(ss, es, i)
  }

  lemma BootStep(s: State, e: Event, n: nat)
    requires 1 <= n <= NUM_TERMS && Started(s, n) && StartupEvent(e) && Entered(s, e)
    ensures var r := Step(s, e);
            if e.Show? then Started(r, n) else if n < NUM_TERMS then Started(r, n + 1) else Inv(r)
  {
    if e.TimerTick? {
      if n < NUM_TERMS {
        NextShellStarts(s, e.depth, e.ebp);
      } else {
        RoundRobinStarts(s, e.depth, e.ebp);
      }
    }
  }

  /** Main result: from boot on, the shells are started one by one, and from the third tick on the invariant holds. */
  lemma {:induction false} BootRunKeeps(boot: State, esp: int, ebp: int, ss: seq<State>, es: seq<Event>, i: nat)
    requires IsBootRun(boot, esp, ebp, ss, es) && i < |ss|
    ensures if Ticks(es, i) < 3 then Started(ss[i], Ticks(es, i) + 1) else Inv(ss[i])
  {
    if i == 0 {
      BootStarts(boot, esp, ebp);
    } else {
      BootRunKeeps(boot, esp, ebp, ss, es, i - 1);
      assert Happens(ss, es, i - 1) && AllowedAt(ss, es, i - 1);
      if Ticks(es, i - 1) < 3 {
        BootStep(ss[i - 1], es[i - 1], Ticks(es, i - 1) + 1);
      } else {
        StepKeeps(ss[i - 1], es[i - 1]);
      }
    }
  }

  lemma BootRunIsProper(boot: State, esp: int, ebp: int, ss: seq<State>, es: seq<Event>)
    requires IsBootRun(boot, esp, ebp, ss, es)
    ensures IsProper(ss, es)
  {
    forall i | 0 <= i < |es|
      ensures ProperAt(ss, es, i)
    {
      BootRunKeeps(boot, esp, ebp, ss, es, i);
      assert Happens(ss, es, i) && AllowedAt(ss, es, i);
    }
  }

  lemma StartupIsBootRun(boot: State, esp: int, ebp: int, ss: seq<State>, es: seq<Event>)
    requires IsStartup(boot, esp, ebp, ss, es)
    ensures IsBootRun(boot, esp, ebp, ss, es)
  {
    forall i | 0 <= i < |es|
      ensures AllowedAt(ss, es, i)
    {
      TicksGrow(es, i, |es| - 1);
      assert es[i] in es;
    }
  }

  lemma RunIsProper(ss: seq<State>, es: seq<Event>)
    requires IsRun(ss, es)
    ensures IsProper(ss, es)
  {
    forall i | 0 <= i < |es|
      ensures ProperAt(ss, es, i)
    {
      RunKeeps(ss, es, i);
      assert StepAt(ss, es, i);
    }
  }

  lemma HistoryExtended(ss: seq<State>, es: seq<Event>, e: Event, next: State)
    requires IsHistory(ss, es) && ss[|es|].WellFormed() && Entered(ss[|es|], e) && next == Step(ss[|es|], e)
    ensures IsHistory(ss + [next], es + [e])
  {
    var ss', es' := ss + [next], es + [e];
    forall i | 0 <= i < |es'|
      ensures Happens(ss', es', i)
    {
      if i < |es| {
        assert Happens(ss, es, i);
      }
    }
  }

  lemma RunExtended(ss: seq<State>, es: seq<Event>, e: Event, next: State)
    requires IsRun(ss, es) && ss[|es|].WellFormed() && Entered(ss[|es|], e) && next == Step(ss[|es|], e)
    requires Legal(ss[|es|], e)
    ensures IsRun(ss + [next], es + [e])
  {
    var ss', es' := ss + [next], es + [e];
    forall i | 0 <= i < |es'|
      ensures StepAt(ss', es', i)
    {
      if i < |es| {
        assert StepAt(ss, es, i);
      }
    }
  }

  lemma {:induction false} TicksOfPrefix(es: seq<Event>, more: seq<Event>, i: nat)
    requires i <= |es|
    ensures Ticks(es + more, i) == Ticks(es, i)
  {
    if i > 0 {
      TicksOfPrefix(es, more, i - 1);
    }
  }

  lemma BootRunExtended(boot: State, esp: int, ebp: int, ss: seq<State>, es: seq<Event>, e: Event, next: State)
    requires IsBootRun(boot, esp, ebp, ss, es)
    requires ss[|es|].WellFormed() && Entered(ss[|es|], e) && next == Step(ss[|es|], e)
    requires if Ticks(es, |es|) < 3 then StartupEvent(e) else Legal(ss[|es|], e)
    ensures IsBootRun(boot, esp, ebp, ss + [next], es + [e])
    ensures Ticks(es + [e], |es| + 1) == Ticks(es, |es|) + if e.TimerTick? then 1 else 0
  {
    HistoryExtended(ss, es, e, next);
    TicksOfPrefix(es, [e], |es|);
    var ss', es' := ss + [next], es + [e];
    forall i | 0 <= i < |es'|
      ensures AllowedAt(ss', es', i)
    {
      if i < |es| {
        assert AllowedAt(ss, es, i);
        TicksOfPrefix(es, [e], i);
      }
    }
  }

  // ------------------------------------------------------------------ preemption and resumption

  /** The last tick before state `i` that preempted terminal `t`, or -1. */
  ghost function LastTick(ss: seq<State>, es: seq<Event>, i: nat, t: nat): (k: int)
    requires |ss| == |es| + 1 && i < |ss|
    ensures -1 <= k < i
    ensures 0 <= k ==> es[k].TimerTick? && ss[k].inService == t
    ensures forall j | k < j < i :: !(es[j].TimerTick? && ss[j].inService == t)
  {
    if i == 0 then -1
    else if es[i - 1].TimerTick? && ss[i - 1].inService == t then i - 1
    else LastTick(ss, es, i - 1, t)
  }

  /** The context that the process running at tick `k` had then. */
  function ContextAt(ss: seq<State>, es: seq<Event>, k: nat): Context
    requires |ss| == |es| + 1 && k < |es| && es[k].TimerTick?
  {
    Context(ss[k].esp0 - es[k].depth, es[k].ebp, ss[k].oteMb)
  }

  lemma TickSaves(s: State, e: Event, t: nat)
    requires Proper(s, e) && Entered(s, e) && t < NUM_TERMS
    ensures Step(s, e).sched[t] ==
            if e.TimerTick? && s.inService == t then Context(s.esp0 - e.depth, e.ebp, s.oteMb) else s.sched[t]
  {
    if Inv(s) && Legal(s, e) && e.TimerTick? {
      TickIs(s, e.depth, e.ebp);
    }
  }

  /** Main result: a saved context is that of the terminal's last preemption, during start-up and ever after. */
  lemma {:induction false} SavedIsLastPreempted(ss: seq<State>, es: seq<Event>, i: nat, t: nat)
    requires IsProper(ss, es) && i < |ss| && t < NUM_TERMS && |ss[0].sched| == NUM_TERMS
    ensures |ss[i].sched| == NUM_TERMS
    ensures var k := LastTick(ss, es, i, t); ss[i].sched[t] == if 0 <= k then ContextAt(ss, es, k) else ss[0].sched[t]
  {
    if i > 0 {
      SavedIsLastPreempted(ss, es, i - 1, t);
      assert ProperAt(ss, es, i - 1);
      TickSaves(ss[i - 1], es[i - 1], t);
    }
  }

  /** The first three ticks preempt the three terminals one by one. */
  lemma {:induction false} AllPreempted(boot: State, esp: int, ebp: int, ss: seq<State>, es: seq<Event>, i: nat, t: nat)
    requires IsBootRun(boot, esp, ebp, ss, es) && i < |ss| && t < NUM_TERMS && t < Ticks(es, i)
    ensures 0 <= LastTick(ss, es, i, t)
  {
    if t < Ticks(es, i - 1) {
      AllPreempted(boot, esp, ebp, ss, es, i - 1, t);
    } else {
      BootRunKeeps(boot, esp, ebp, ss, es, i - 1);
    }
  }

  /** Main result: from the third tick after boot on, every saved context is that of an actual last preemption. */
  lemma SavedSinceBoot(boot: State, esp: int, ebp: int, ss: seq<State>, es: seq<Event>, i: nat, t: nat)
    requires IsBootRun(boot, esp, ebp, ss, es) && i < |ss| && t < NUM_TERMS && 3 <= Ticks(es, i)
    ensures var k := LastTick(ss, es, i, t);
            0 <= k && |ss[i].sched| == NUM_TERMS && ss[i].sched[t] == ContextAt(ss, es, k)
  {
    BootRunIsProper(boot, esp, ebp, ss, es);
    BootRunKeeps(boot, esp, ebp, ss, es, 0);
    AllPreempted(boot, esp, ebp, ss, es, i, t);
    SavedIsLastPreempted(ss, es, i, t);
  }

  /** A tick that starts no shell loads the context saved for the terminal it serves. */
  lemma TickLoads(s: State, e: Event)
    requires Proper(s, e) && Entered(s, e) && e.TimerTick? && !Started(s, 1) && !Started(s, 2)
    ensures var r := Step(s, e);
            && r.inService < NUM_TERMS
            && Context(r.esp, r.ebp, r.oteMb) == r.sched[r.inService]
  {
    if Inv(s) && Legal(s, e) {
      TickIs(s, e.depth, e.ebp);
    }
  }

  /** A tick finds the stack pointer on the stack of the process it preempts. */
  lemma TickOnOwnStack(s: State, e: Event)
    requires Proper(s, e) && e.TimerTick?
    ensures ProcessNumber(s.esp0 - e.depth) == s.Running()
  {
    if Inv(s) && Legal(s, e) {
      EntryIsRunning(s, e.depth);
    }
  }

  /**
    Main result: a tick that starts no shell gives the terminal it serves the stack, the frame and the memory
    its process had when it was last preempted, and it is the same process.
   */
  lemma ResumesWherePreempted(ss: seq<State>, es: seq<Event>, i: nat)
    requires IsProper(ss, es) && i < |es| && es[i].TimerTick? && |ss[0].sched| == NUM_TERMS
    requires !Started(ss[i], 1) && !Started(ss[i], 2)
    ensures var r := ss[i + 1]; var k := LastTick(ss, es, i + 1, r.inService);
            0 <= k ==> Context(r.esp, r.ebp, r.oteMb) == ContextAt(ss, es, k) && r.Running() == ss[k].Running()
  {
    var t := ss[i + 1].inService;
    var k := LastTick(ss, es, i + 1, t);
    assert ProperAt(ss, es, i);
    TickLoads(ss[i], es[i]);
    SavedIsLastPreempted(ss, es, i + 1, t);
    if 0 <= k {
      assert ProperAt(ss, es, k);
      TickOnOwnStack(ss[k], es[k]);
    }
  }

  /** Main result: so it is from the third tick after boot on, the first resumption of each shell included. */
  lemma ResumesSinceBoot(boot: State, esp: int, ebp: int, ss: seq<State>, es: seq<Event>, i: nat)
    requires IsBootRun(boot, esp, ebp, ss, es) && i < |es| && es[i].TimerTick? && 2 <= Ticks(es, i)
    ensures var r := ss[i + 1]; var k := LastTick(ss, es, i + 1, r.inService);
            0 <= k && Context(r.esp, r.ebp, r.oteMb) == ContextAt(ss, es, k) && r.Running() == ss[k].Running()
  {
    BootRunIsProper(boot, esp, ebp, ss, es);
    BootRunKeeps(boot, esp, ebp, ss, es, 0);
    BootRunKeeps(boot, esp, ebp, ss, es, i);
    assert ProperAt(ss, es, i);
    TickLoads(ss[i], es[i]);
    AllPreempted(boot, esp, ebp, ss, es, i + 1, ss[i + 1].inService);
    ResumesWherePreempted(ss, es, i);
  }

  // ------------------------------------------------------------------ start-up as a whole

  /**
    Main result: booting and three ticks lead to the invariant, whatever terminals the user brings up
    meanwhile.  The first terminal served is the one after that displayed at the second tick, `k`, and the
    saved contexts are those of the ticks that preempted the shells.
   */
  lemma StartupEstablishes(boot: State, esp: int, ebp: int, ss: seq<State>, es: seq<Event>, k: nat)
    requires IsStartup(boot, esp, ebp, ss, es)
    requires k < |es| && es[k].TimerTick? && Ticks(es, k) == 1
    ensures var s := ss[|es|];
            && Inv(s) && ShellParents(s) && (forall p | 0 <= p < MAX_PROCESSES :: s.Live(p) <==> p < NUM_TERMS)
            && s.inService == (ss[k].displayed + 1) % NUM_TERMS && s.displayed == ss[|es| - 1].displayed
            && s.pcbs[0].parentPid == ProcessNumber(esp)
            && s.pcbs[0].parentEsp == esp && s.pcbs[0].parentPhysAddr == boot.oteMb
    ensures forall t: nat | t < NUM_TERMS ::
              var j := LastTick(ss, es, |es|, t); 0 <= j && ss[|es|].sched[t] == ContextAt(ss, es, j)
  {
    var last := |es| - 1;
    StartingUp(boot, esp, ebp, ss, es, k, last);
    assert Happens(ss, es, last) && es[last] in es;
    RoundRobinStarts(ss[last], es[last].depth, es[last].ebp);
    StartupIsBootRun(boot, esp, ebp, ss, es);
    forall t: nat | t < NUM_TERMS
      ensures var j := LastTick(ss, es, |es|, t); 0 <= j && ss[|es|].sched[t] == ContextAt(ss, es, j)
    {
      SavedSinceBoot(boot, esp, ebp, ss, es, |es|, t);
    }
  }

  // ------------------------------------------------------------------ fairness

  lemma TickServes(s: State, e: Event)
    requires Inv(s) && Entered(s, e) && Legal(s, e)
    ensures Step(s, e).inService == if e.TimerTick? then (s.inService + 1) % NUM_TERMS else s.inService
  {
    if e.TimerTick? {
      TickIs(s, e.depth, e.ebp);
    }
  }

  lemma StepServes(ss: seq<State>, es: seq<Event>, i: nat)
    requires IsRun(ss, es) && i < |es|
    ensures ss[i + 1].inService == if es[i].TimerTick? then (ss[i].inService + 1) % NUM_TERMS else ss[i].inService
    ensures ss[i].inService < NUM_TERMS
  {
    RunKeeps(ss, es, i);
    assert StepAt(ss, es, i);
    TickServes(ss[i], es[i]);
  }

  lemma NextTurn(n: nat)
    ensures (n % NUM_TERMS + 1) % NUM_TERMS == (n + 1) % NUM_TERMS
  {
  }

  lemma ThreeTurns(n: nat, a: nat, b: nat, c: nat)
    requires a == n % NUM_TERMS && b == (n + 1) % NUM_TERMS && c == (n + 2) % NUM_TERMS
    ensures multiset{a, b, c} == multiset{0, 1, 2}
  {
  }

  /** Main result: the terminal in service advances by one on each tick and at no other time. */
  lemma {:induction false} ServedInTurn(ss: seq<State>, es: seq<Event>, i: nat)
    requires IsRun(ss, es) && i < |ss|
    ensures ss[i].inService == (ss[0].inService + Ticks(es, i)) % NUM_TERMS
  {
    if i > 0 {
      ServedInTurn(ss, es, i - 1);
      StepServes(ss, es, i - 1);
      NextTurn(ss[0].inService + Ticks(es, i - 1));
    }
  }

  lemma {:induction false} NoTicksBetween(es: seq<Event>, i: nat, j: nat)
    requires i <= j <= |es| && forall k | i <= k < j :: !es[k].TimerTick?
    ensures Ticks(es, j) == Ticks(es, i)
  {
    if i < j {
      NoTicksBetween(es, i, j - 1);
    }
  }

  /** Any three consecutive ticks serve each terminal exactly once. */
  lemma ThreeTicksServeAll(ss: seq<State>, es: seq<Event>, i: nat, j: nat, k: nat)
    requires IsRun(ss, es) && i < j < k < |es|
    requires es[i].TimerTick? && es[j].TimerTick? && es[k].TimerTick?
    requires forall m | i < m < k && m != j :: !es[m].TimerTick?
    ensures multiset{ss[i + 1].inService, ss[j + 1].inService, ss[k + 1].inService} == multiset{0, 1, 2}
  {
    NoTicksBetween(es, i + 1, j);
    NoTicksBetween(es, j + 1, k);
    assert Ticks(es, j + 1) == Ticks(es, i + 1) + 1 && Ticks(es, k + 1) == Ticks(es, i + 1) + 2;
    ServedInTurn(ss, es, i + 1);
    ServedInTurn(ss, es, j + 1);
    ServedInTurn(ss, es, k + 1);
    ThreeTurns(ss[0].inService + Ticks(es, i + 1), ss[i + 1].inService, ss[j + 1].inService, ss[k + 1].inService);
  }

  // ------------------------------------------------------------------ slots

  /** execute takes the lowest free slot and no other; a failing execute changes nothing. */
  lemma ExecuteTakesLowestSlot(s: State, depth: nat, ebp: int, load: Load)
    requires Inv(s) && Fits(depth)
    ensures ValidEntry(s, depth)
    ensures var r := Execute(s, s.esp0 - depth, ebp, load);
            if exists p :: 0 <= p < MAX_PROCESSES && !s.Live(p) && load.Program?
            then && 0 <= r.Running() < MAX_PROCESSES && !s.Live(r.Running())
                 && (forall q | 0 <= q < r.Running() :: s.Live(q))
                 && r.procArr == s.procArr[r.Running() := RUNNING]
                 && r.oteMb == Mapping(r.Running())
            else r == s
  {
    EntryIsRunning(s, depth);
    if Starts(s, load) {
      assert !s.Live(s.FreeSlot());
      StackTellsProcess(StackBase(s.FreeSlot()), s.FreeSlot());
    }
  }

  lemma StepKeepsPcb(s: State, e: Event, p: nat)
    requires Inv(s) && Entered(s, e) && Legal(s, e) && s.Live(p)
    ensures Step(s, e).pcbs[p] == s.pcbs[p]
  {
  }

  lemma PcbIsKept(ss: seq<State>, es: seq<Event>, i: nat, p: nat)
    requires IsRun(ss, es) && i < |es| && p < MAX_PROCESSES && ss[i].WellFormed() && ss[i].Live(p)
    ensures |ss[i + 1].pcbs| == MAX_PROCESSES && ss[i + 1].pcbs[p] == ss[i].pcbs[p]
  {
    RunKeeps(ss, es, i);
    assert StepAt(ss, es, i);
    StepKeepsPcb(ss[i], es[i], p);
  }

  lemma {:induction false} LivePcbIsKept(ss: seq<State>, es: seq<Event>, i: nat, j: nat, p: nat)
    requires IsRun(ss, es) && i <= j < |ss| && p < MAX_PROCESSES
    requires forall k | i <= k <= j :: ss[k].WellFormed() && ss[k].Live(p)
    ensures |ss[i].pcbs| == |ss[j].pcbs| == MAX_PROCESSES
    ensures ss[j].pcbs[p] == ss[i].pcbs[p]
  {
    assert ss[j].WellFormed() && ss[i].WellFormed();
    if i < j {
      LivePcbIsKept(ss, es, i, j - 1, p);
      PcbIsKept(ss, es, j - 1, p);
    }
  }

  lemma ExecuteRecordsParent(s: State, depth: nat, ebp: int, load: Load)
    requires Inv(s) && Fits(depth) && Starts(s, load)
    ensures ValidEntry(s, depth)
    ensures var r := Execute(s, s.esp0 - depth, ebp, load); var p := s.FreeSlot();
            r.Running() == p && r.pcbs[p].parentPid == s.Running() && r.pcbs[p].parentPhysAddr == s.oteMb
            && r.pcbs[p].parentEsp == s.esp0 - depth && r.pcbs[p].parentEbp == ebp
  {
  }

  /**
    Main result: however the run goes on in between, when an executed child halts its parent
    continues where it called execute, with its own memory mapped and its own kernel stack, and
    the slot is free again.
   */
  lemma HaltReturnsToExecute(ss: seq<State>, es: seq<Event>, i: nat, j: nat)
    requires IsRun(ss, es) && i < j < |es|
    requires es[i].ExecuteCall? && ss[i].WellFormed() && Starts(ss[i], es[i].load)
    requires es[j].HaltCall? && ss[j].Running() == ss[i + 1].Running()
    requires forall k | i < k <= j :: ss[k].WellFormed() && ss[k].Live(ss[j].Running())
    ensures ss[j].WellFormed() && ss[j].Live(ss[j].Running())
    ensures ss[j + 1].esp == ss[i].esp0 - es[i].depth && ss[j + 1].ebp == es[i].ebp
    ensures ss[j + 1].oteMb == ss[i].oteMb && ss[j + 1].esp0 == ss[i].esp0
    ensures ss[j + 1].procArr == ss[j].procArr[ss[j].Running() := FREE]
    ensures ss[i].procArr[ss[j].Running()] == FREE
  {
    var p := ss[j].Running();
    assert StepAt(ss, es, i) && StepAt(ss, es, j);
    RunKeeps(ss, es, i);
    RunKeeps(ss, es, j);
    ExecuteRecordsParent(ss[i], es[i].depth, es[i].ebp, es[i].load);
    assert ss[i].Live(0);
    LivePcbIsKept(ss, es, i + 1, j, p);
    EntryIsRunning(ss[j], es[j].depth);
  }

  /** Halting right after execute restores the process table, the mapping and tss.esp0, wherever it was executed. */
  lemma ExecuteThenHalt(s: State, depth: nat, ebp: int, load: Load, depth': nat)
    requires Inv(s) && Fits(depth) && Fits(depth') && Starts(s, load)
    ensures var r := Execute(s, s.esp0 - depth, ebp, load);
            && ValidEntry(r, depth')
            && Halt(r, depth') == s.(pcbs := r.pcbs, esp := s.esp0 - depth, ebp := ebp)
  {
    var r := Execute(s, s.esp0 - depth, ebp, load);
    EntryIsRunning(s, depth);
    ExecuteRecordsParent(s, depth, ebp, load);
    assert s.Live(0);
    StackTellsProcess(r.esp0 - depth', s.FreeSlot());
    assert s.procArr[s.FreeSlot() := RUNNING][s.FreeSlot() := FREE] == s.procArr;
  }

  // ------------------------------------------------------------------ memory

  /** The page directory entry that terminal `t`'s active process has or is to be resumed with. */
  function MappingOn(s: State, t: nat): int
    requires s.WellFormed() && t < NUM_TERMS
  {
    if t == s.inService then s.oteMb else s.sched[t].oteMb
  }

  /** First byte of the 4 MB page an entry maps. */
  function PageOf(entry: int): int {
    entry / FOUR_MB * FOUR_MB
  }

  /**
    The places that hold a process' memory: place `h` below 3 is that of terminal `h`'s active process,
    place `h` from 3 on is where the process in slot `h` keeps its caller's.
   */
  predicate InUse(s: State, h: int)
    requires s.WellFormed()
  {
    0 <= h < NUM_TERMS || (NUM_TERMS <= h < MAX_PROCESSES && s.Live(h))
  }

  function Recorded(s: State, h: int): int
    requires s.WellFormed() && InUse(s, h)
  {
    if h < NUM_TERMS then MappingOn(s, h) else s.pcbs[h].parentPhysAddr
  }

  /** Whose memory place `h` holds. */
  function OwnerAt(s: State, h: int): (p: nat)
    requires s.WellFormed() && InUse(s, h)
  {
    if h < NUM_TERMS then s.ActiveOn(h) else s.CallerOf(h)
  }

  lemma RecordedIsOwners(s: State, h: int)
    requires Inv(s) && InUse(s, h)
    ensures Recorded(s, h) == Mapping(OwnerAt(s, h)) && s.Live(OwnerAt(s, h))
  {
  }

  lemma OwnersDiffer(s: State, h: int, g: int)
    requires Inv(s) && InUse(s, h) && InUse(s, g) && h < g
    ensures OwnerAt(s, h) != OwnerAt(s, g)
  {
    assert s.pcbs[OwnerAt(s, h)].term == if h < NUM_TERMS then h else s.pcbs[h].term;
    assert s.pcbs[OwnerAt(s, g)].term == if g < NUM_TERMS then g else s.pcbs[g].term;
  }

  lemma PageOfMapping(p: int)
    ensures PageOf(Mapping(p)) == PhysicalPage(p)
  {
  }

  /**
    Main result: in every state of a run, the memory that the CPU has, that each saved context will
    get back and that each halting child will give back are pairwise disjoint 4 MB pages of live
    processes: no two processes are ever about to share memory.
   */
  lemma PagesAreDisjoint(ss: seq<State>, es: seq<Event>, i: nat, h: int, g: int)
    requires IsRun(ss, es) && i < |ss| && ss[i].WellFormed()
    requires InUse(ss[i], h) && InUse(ss[i], g) && h < g
    ensures exists p | ss[i].Live(p) :: PageOf(Recorded(ss[i], h)) == PhysicalPage(p)
    ensures var a, b := PageOf(Recorded(ss[i], h)), PageOf(Recorded(ss[i], g)); a + FOUR_MB <= b || b + FOUR_MB <= a
  {
    RunKeeps(ss, es, i);
    RecordedIsOwners(ss[i], h);
    RecordedIsOwners(ss[i], g);
    OwnersDiffer(ss[i], h, g);
    PageOfMapping(OwnerAt(ss[i], h));
    PageOfMapping(OwnerAt(ss[i], g));
  }

  /** Somewhere in slot `q`: on its kernel stack or in its PCB. */
  predicate InSlot(a: int, q: int) {
    OnStack(a, q) || PcbLoc(q) <= a < PcbLoc(q) + PCB_SIZE
  }

  /**
    The entry maps, with the flags of a user page, the 4 MB page of slot `p`: the one that starts 4 MB times `p`
    above the first 8 MB.  It is clear of every kernel stack and PCB, which lie in the 4 MB below, and so of
    video memory.
   */
  ghost predicate MapsProgram(entry: int, p: int) {
    && 0 <= p < 6 && entry == 0x80_0000 + 0x40_0000 * p + 0x87
    && PageOf(entry) == 0x80_0000 + 0x40_0000 * p
    && forall a, q | 0 <= q < 6 && InSlot(a, q) :: 0x40_0000 <= a < 0x80_0000 <= PageOf(entry)
  }

  lemma MappingMapsProgram(p: int)
    requires 0 <= p < MAX_PROCESSES
    ensures MapsProgram(Mapping(p), p)
  {
    PageOfMapping(p);
  }

  /**
    Main result: in every state of a run, the memory that the CPU has, that each saved context will get back and
    that each halting child will give back are program pages, each the page of a live process' slot.
   */
  lemma PagesAreProgramPages(ss: seq<State>, es: seq<Event>, i: nat, h: int)
    requires IsRun(ss, es) && i < |ss| && ss[i].WellFormed() && InUse(ss[i], h)
    ensures exists p | ss[i].Live(p) :: MapsProgram(Recorded(ss[i], h), p)
    ensures MapsProgram(ss[i].oteMb, ss[i].Running())
  {
    RunKeeps(ss, es, i);
    RecordedIsOwners(ss[i], h);
    MappingMapsProgram(OwnerAt(ss[i], h));
    EntryIsRunning(ss[i], 0);
    MappingMapsProgram(ss[i].Running());
  }

  /** Main result: so it is for the CPU from boot on, while the shells are being started included. */
  lemma CpuMapsProgramSinceBoot(boot: State, esp: int, ebp: int, ss: seq<State>, es: seq<Event>, i: nat)
    requires IsBootRun(boot, esp, ebp, ss, es) && i < |ss|
    ensures MapsProgram(ss[i].oteMb, ss[i].Running())
  {
    BootRunKeeps(boot, esp, ebp, ss, es, i);
    if 3 <= Ticks(es, i) {
      EntryIsRunning(ss[i], 0);
    }
    MappingMapsProgram(ss[i].Running());
  }

  /** A started program runs in its slot's page, on its slot's stack, whatever state it is started in. */
  lemma StartedInOwnPage(s: State, esp: int, ebp: int, load: Load)
    requires s.WellFormed() && Starts(s, load)
    ensures var r, p := Execute(s, esp, ebp, load), s.FreeSlot();
            && MapsProgram(r.oteMb, p) && r.Running() == p
            && InSlot(r.esp, p) && r.esp == r.esp0 == 0x80_0000 - 0x2000 * p - 1
  {
    MappingMapsProgram(s.FreeSlot());
    StackTellsProcess(StackBase(s.FreeSlot()), s.FreeSlot());
  }

  // ------------------------------------------------------------------ the display

  /** The terminal shown last, or the first one. */
  function LastShown(first: nat, es: seq<Event>, i: nat): nat
    requires i <= |es|
  {
    if i == 0 then first else if es[i - 1].Show? then es[i - 1].term else LastShown(first, es, i - 1)
  }

  /** The kernel's process management never changes the display: it is the terminal the user brought up last. */
  lemma {:induction false} DisplayedIsLastShown(ss: seq<State>, es: seq<Event>, i: nat)
    requires IsProper(ss, es) && i < |ss|
    ensures ss[i].displayed == LastShown(ss[0].displayed, es, i)
  {
    if i > 0 {
      DisplayedIsLastShown(ss, es, i - 1);
      assert ProperAt(ss, es, i - 1);
      StepDisplays(ss[i - 1], es[i - 1]);
    }
  }

  lemma StepDisplays(s: State, e: Event)
    requires Proper(s, e) && Entered(s, e)
    ensures Step(s, e).displayed == if e.Show? then e.term else s.displayed
  {
    if Inv(s) && Legal(s, e) && e.TimerTick? {
      TickIs(s, e.depth, e.ebp);
    }
  }

  // ------------------------------------------------------------------ where execute fails

  /** The event enters the kernel without overrunning the stack, or shows a terminal there is. */
  predicate FitsEvent(e: Event) {
    match e
    case TimerTick(depth, _) => Fits(depth)
    case ExecuteCall(depth, _, _) => Fits(depth)
    case HaltCall(depth) => Fits(depth)
    case Show(t) => t < NUM_TERMS
  }

  /** Main result: of the events that can happen, the legal ones are exactly those that keep the invariant. */
  lemma LegalIff(s: State, e: Event)
    requires Inv(s) && FitsEvent(e)
    ensures Entered(s, e) && (Legal(s, e) <==> Inv(Step(s, e)))
  {
    EntryIsRunning(s, if e.Show? then 0 else e.depth);
    if Legal(s, e) {
      StepKeeps(s, e);
    } else if e.ExecuteCall? {
      ExecuteKeepsInvariantIff(s, e.depth, e.ebp, e.load);
    } else {
      HaltKeepsInvariantIff(s, e.depth);
    }
  }

  /**
    execute records the displayed terminal, and the scan prefers low slots.  After a started program
    the CPU runs the active process of the terminal in service, and the invariant holds, exactly when
    that terminal was displayed and the new slot lies below every process of the terminal.
   */
  lemma ExecuteKeepsInvariantIff(s: State, depth: nat, ebp: int, load: Load)
    requires Inv(s) && Fits(depth) && Starts(s, load)
    ensures var r := Execute(s, s.esp0 - depth, ebp, load);
            && (Inv(r) <==> GoodPlace(s))
            && (r.Running() == r.ActiveOn(s.inService) <==> GoodPlace(s))
  {
    var r, p := Execute(s, s.esp0 - depth, ebp, load), s.FreeSlot();
    if GoodPlace(s) {
      ExecuteKeeps(s, depth, ebp, load);
    } else {
      ExecuteRecordsParent(s, depth, ebp, load);
      assert s.Live(0) && s.Live(1) && s.Live(2) && !s.Live(p);
      if s.displayed == s.inService {
        assert r.ChildOn(s.Running(), s.inService);
      } else {
        assert r.pcbs[p].term != s.inService;
      }
    }
  }

  /**
    On a hidden terminal the next tick takes the child for the displayed terminal's process.  It
    saves the child's context over that terminal's own, and never saves the caller's terminal's.
   */
  lemma MisplacedExecuteLosesContext(s: State, depth: nat, ebp: int, load: Load, depth': nat, ebp': int)
    requires Inv(s) && Fits(depth) && Fits(depth') && Starts(s, load)
    requires s.displayed != s.inService
    ensures var r := Execute(s, s.esp0 - depth, ebp, load);
            && ValidEntry(r, depth')
            && Tick(r, depth', ebp').sched[s.displayed] == Context(r.esp0 - depth', ebp', Mapping(r.Running()))
            && Tick(r, depth', ebp').sched[s.inService] == s.sched[s.inService]
  {
  }

  /** Process `x` of terminal `t` is entered with its own kernel stack, invariant or not. */
  ghost predicate Enters(s: State, x: nat, t: nat) {
    && s.WellFormed() && s.schedInit && (forall u | 0 <= u < NUM_TERMS :: s.shellsRunning[u])
    && x < MAX_PROCESSES && s.esp0 == StackBase(x) && s.pcbs[x].term == t
  }

  /** What a tick to terminal `n` changes and keeps; process `x` of terminal `t` was entered with context `c`. */
  ghost predicate Moved(s: State, x: nat, t: nat, c: Context, n: nat, r: State) {
    && Enters(s, x, t) && r.WellFormed() && n < NUM_TERMS
    && r.sched == s.sched[t := c] && r.inService == n && r.esp0 == StackBase(s.ActiveOn(n))
    && r.esp == r.sched[n].esp && r.ebp == r.sched[n].ebp && r.oteMb == r.sched[n].oteMb
    && r.procArr == s.procArr && r.pcbs == s.pcbs
    && r.shellsRunning == s.shellsRunning && r.schedInit
  }

  lemma TickOf(s: State, x: nat, t: nat, depth: nat, ebp: int)
    requires Enters(s, x, t) && Fits(depth)
    ensures ValidEntry(s, depth)
    ensures Moved(s, x, t, Context(StackBase(x) - depth, ebp, s.oteMb), (t + 1) % NUM_TERMS, Tick(s, depth, ebp))
  {
    StackTellsProcess(s.esp0 - depth, x);
  }

  lemma MovedEnters(s: State, x: nat, t: nat, c: Context, n: nat, r: State)
    requires Moved(s, x, t, c, n, r) && s.pcbs[s.ActiveOn(n)].term == n
    ensures Enters(r, s.ActiveOn(n), n)
    ensures forall u: nat | u < NUM_TERMS :: r.ActiveOn(u) == s.ActiveOn(u)
  {
  }

  /** A tick of a history; `x'` is the process the next terminal is entered with. */
  lemma NextTick(ss: seq<State>, es: seq<Event>, i: nat, x: nat, t: nat, x': nat, n: nat) returns (c: Context)
    requires IsHistory(ss, es) && i < |es| && es[i].TimerTick? && Fits(es[i].depth)
    requires Enters(ss[i], x, t) && n == (t + 1) % NUM_TERMS && x' == ss[i].ActiveOn(n) && ss[i].pcbs[x'].term == n
    ensures c == Context(StackBase(x) - es[i].depth, es[i].ebp, ss[i].oteMb)
    ensures Moved(ss[i], x, t, c, n, ss[i + 1]) && Enters(ss[i + 1], x', n)
    ensures forall u: nat | u < NUM_TERMS :: ss[i + 1].ActiveOn(u) == ss[i].ActiveOn(u)
  {
    assert Happens(ss, es, i);
    TickOf(ss[i], x, t, es[i].depth, es[i].ebp);
    c := Context(StackBase(x) - es[i].depth, es[i].ebp, ss[i].oteMb);
    MovedEnters(ss[i], x, t, c, n, ss[i + 1]);
  }

  /** Three ticks from terminal `t` back to it: its process comes back on the stack it was preempted on. */
  lemma FullTurn(s: State, x: nat, t: nat, c: Context, u: nat, a: State, xa: nat, c': Context, v: nat,
                 b: State, xb: nat, c'': Context, r: State)
    requires t != u && u != v && v != t
    requires Moved(s, x, t, c, u, a) && Moved(a, xa, u, c', v, b) && Moved(b, xb, v, c'', t, r)
    ensures r.inService == t && r.esp0 == StackBase(b.ActiveOn(t))
    ensures r.esp == c.esp && r.ebp == c.ebp && r.oteMb == c.oteMb
    ensures r.procArr == s.procArr && r.pcbs == s.pcbs
  {
  }

  lemma ThreeTicks(ss: seq<State>, es: seq<Event>, x: nat, t: nat, u: nat, v: nat)
    requires u == (t + 1) % NUM_TERMS && v == (u + 1) % NUM_TERMS && t == (v + 1) % NUM_TERMS
    requires IsHistory(ss, es) && |es| == 3 && forall i | 0 <= i < 3 :: es[i].TimerTick? && Fits(es[i].depth)
    requires Enters(ss[0], x, t) && forall u: nat | u < NUM_TERMS :: ss[0].pcbs[ss[0].ActiveOn(u)].term == u
    ensures ss[3].inService == t && ss[3].esp0 == StackBase(ss[0].ActiveOn(t))
    ensures ss[3].esp == StackBase(x) - es[0].depth && ss[3].ebp == es[0].ebp && ss[3].oteMb == ss[0].oteMb
    ensures ss[3].procArr == ss[0].procArr && ss[3].pcbs == ss[0].pcbs
  {
    var xu, xv := ss[0].ActiveOn(u), ss[0].ActiveOn(v);
    var c := NextTick(ss, es, 0, x, t, xu, u);
    assert ss[1].ActiveOn(v) == xv;
    var c' := NextTick(ss, es, 1, xu, u, xv, v);
    var c'' := NextTick(ss, es, 2, xv, v, ss[0].ActiveOn(t), t);
    FullTurn(ss[0], x, t, c, u, ss[1], xu, c', v, ss[2], xv, c'', ss[3]);
  }

  /**
    In a slot above its caller's, the child is resumed three ticks later with its own stack and
    memory but its caller's tss.esp0.  Its next system call overwrites the caller's kernel stack and
    is taken for the caller's: a halt frees the caller's slot and leaves the child's taken.
   */
  lemma ExecuteAboveCallerConfuses(s: State, depth: nat, ebp: int, load: Load, ss: seq<State>, es: seq<Event>,
                                   depth': nat)
    requires Inv(s) && Fits(depth) && Fits(depth') && Starts(s, load)
    requires s.displayed == s.inService && !GoodPlace(s)
    requires IsHistory(ss, es) && ss[0] == Execute(s, s.esp0 - depth, ebp, load)
    requires |es| == 3 && forall i | 0 <= i < 3 :: es[i].TimerTick? && Fits(es[i].depth)
    ensures var c, p, q := s.Running(), s.FreeSlot(), ss[3];
            && NUM_TERMS <= c < p && q.WellFormed()
            && q.Running() == p && q.oteMb == Mapping(p) && q.esp0 == StackBase(c)
            && ValidEntry(q, depth') && Halt(q, depth').procArr == s.procArr[p := RUNNING][c := FREE]
  {
    var r, c, p, q := ss[0], s.Running(), s.FreeSlot(), ss[3];
    EntryIsRunning(s, depth);
    assert s.Live(0) && s.Live(1) && s.Live(2) && s.Live(c) && !s.Live(p);
    LowestAbove(s, r, c, p);
    ThreeTicks(ss, es, p, s.inService, (s.inService + 1) % NUM_TERMS, (s.inService + 2) % NUM_TERMS);
    assert Happens(ss, es, 2);
    StackTellsProcess(q.esp, p);
    StackTellsProcess(q.esp0 - depth', c);
  }

  lemma LowestAbove(s: State, r: State, c: nat, p: nat)
    requires Inv(s) && r.WellFormed() && c == s.ActiveOn(s.inService) && NUM_TERMS <= c < p < MAX_PROCESSES
    requires forall q | 0 <= q < MAX_PROCESSES && q != p :: r.procArr[q] == s.procArr[q] && r.pcbs[q] == s.pcbs[q]
    ensures r.ActiveOn(s.inService) == c
  {
  }

  // ------------------------------------------------------------------ where halt fails

  /** halt keeps the invariant exactly when the caller is shell 0, which ignores it, or no shell at all. */
  lemma HaltKeepsInvariantIff(s: State, depth: nat)
    requires Inv(s) && Fits(depth)
    ensures ValidEntry(s, depth)
    ensures Inv(Halt(s, depth)) <==> s.Running() == 0 || s.Running() >= NUM_TERMS
  {
    EntryIsRunning(s, depth);
    if s.Running() == 0 || s.Running() >= NUM_TERMS {
      HaltKeeps(s, depth);
    } else {
      assert !Halt(s, depth).Live(s.Running());
    }
  }

  /** The parent data of the shells never changes in a run. */
  lemma {:induction false} ShellParentsKept(ss: seq<State>, es: seq<Event>, i: nat)
    requires IsRun(ss, es) && i < |ss| && ShellParents(ss[0])
    ensures ss[i].WellFormed() && ShellParents(ss[i]) && ss[i].pcbs[0] == ss[0].pcbs[0]
  {
    RunKeeps(ss, es, i);
    if i > 0 {
      ShellParentsKept(ss, es, i - 1);
      RunKeeps(ss, es, i - 1);
      assert ss[i - 1].Live(0) && ss[i - 1].Live(1) && ss[i - 1].Live(2);
      PcbIsKept(ss, es, i - 1, 0);
      PcbIsKept(ss, es, i - 1, 1);
      PcbIsKept(ss, es, i - 1, 2);
    }
  }

  /**
    What shell `k`'s halt does, k being 1 or 2: the CPU gets the stack, mapping and tss.esp0 that shell 0
    was started from, the slot is the next one to be given out, and the scan still serves it.
   */
  lemma ShellHaltLoadsShellZerosParent(s: State, depth: nat)
    requires Inv(s) && ShellParents(s) && Fits(depth) && 0 < s.Running() < NUM_TERMS
    ensures ValidEntry(s, depth)
    ensures var k, base, r := s.Running(), s.pcbs[0], Halt(s, depth);
            && r.esp == base.parentEsp && r.oteMb == base.parentPhysAddr && r.esp0 == StackBase(base.parentPid)
            && !r.Live(k) && r.FreeSlot() == k && r.ActiveOn(k) == k
  {
    EntryIsRunning(s, depth);
    assert s.Live(0) && s.Live(1) && s.Live(2);
    LowestStable(s, Halt(s, depth), s.Running(), NUM_TERMS, s.Running());
  }

  lemma ShellHaltThenTick(s: State, depth: nat, depth': nat, ebp': int) returns (h: State, r: State)
    requires Inv(s) && ShellParents(s) && s.inService == 1 && s.Running() == 1 && Fits(depth) && Fits(depth')
    requires OnStack(s.pcbs[0].parentEsp, 0) && s.pcbs[0].parentPid == 0
    ensures ValidEntry(s, depth) && h == Halt(s, depth)
    ensures h.esp == s.pcbs[0].parentEsp && h.oteMb == s.pcbs[0].parentPhysAddr && h.Running() == 0
    ensures ValidEntry(h, depth') && r == Tick(h, depth', ebp')
    ensures r.sched[0] == Context(StackBase(0) - depth', ebp', s.pcbs[0].parentPhysAddr)
    ensures r.inService == 1 && r.esp == s.sched[1].esp && r.esp0 == StackBase(1) && !r.Live(1)
  {
    ShellHaltLoadsShellZerosParent(s, depth);
    h := Halt(s, depth);
    StackTellsProcess(h.esp, 0);
    TickOf(h, 0, 0, depth', ebp');
    r := Tick(h, depth', ebp');
  }

  // ------------------------------------------------------------------ reachable inputs

  lemma TickedOnce(ss: seq<State>, es: seq<Event>, frame: int) returns (r: State)
    requires IsHistory(ss, es) && (Started(ss[|es|], 1) || Started(ss[|es|], 2) || Started(ss[|es|], 3))
    ensures IsHistory(ss + [r], es + [TimerTick(0, frame)]) && r.displayed == ss[|es|].displayed
    ensures !Started(ss[|es|], 3) ==> Started(r, ss[|es|].inService + 2)
  {
    var s, e := ss[|es|], TimerTick(0, frame);
    if Started(s, 3) {
      RoundRobinStarts(s, 0, frame);
    } else {
      NextShellStarts(s, 0, frame);
    }
    r := Step(s, e);
    HistoryExtended(ss, es, e, r);
  }

  /** Boot and three ticks, without a key being pressed: shell 1 runs while terminal 0 is displayed. */
  lemma PlainStartup(boot: State, esp: int, ebp: int, frame: int) returns (ss: seq<State>, es: seq<Event>)
    requires Booted(boot)
    ensures es == [TimerTick(0, frame), TimerTick(0, frame), TimerTick(0, frame)]
    ensures IsStartup(boot, esp, ebp, ss, es)
    ensures Inv(ss[3]) && ShellParents(ss[3]) && ss[3].inService == ss[3].Running() == 1 && ss[3].displayed == 0
    ensures forall p | 0 <= p < MAX_PROCESSES :: ss[3].Live(p) <==> p < NUM_TERMS
    ensures ss[3].pcbs[0].parentPid == ProcessNumber(esp)
            && ss[3].pcbs[0].parentEsp == esp && ss[3].pcbs[0].parentPhysAddr == boot.oteMb
  {
    BootStarts(boot, esp, ebp);
    var s := Execute(boot, esp, ebp, boot.shell);
    var e := TimerTick(0, frame);
    assert IsHistory([s], []);
    var a := TickedOnce([s], [], frame);
    assert [s] + [a] == [s, a] && [] + [e] == [e];
    var b := TickedOnce([s, a], [e], frame);
    assert [s, a] + [b] == [s, a, b] && [e] + [e] == [e, e];
    var c := TickedOnce([s, a, b], [e, e], frame);
    ss, es := [s, a, b] + [c], [e, e] + [e];
    assert Ticks(es, 1) == 1 && Ticks(es, 2) == 2 && Ticks(es, 3) == 3;
    StartupEstablishes(boot, esp, ebp, ss, es, 1);
  }

  /**
    From every boot, without a key being pressed: the first program that shell 1 starts breaks the
    invariant, because terminal 0 is still displayed.
   */
  lemma HiddenExecuteAfterStartup(boot: State, esp: int, ebp: int, frame: int, depth: nat, load: Load)
    returns (ss: seq<State>, es: seq<Event>)
    requires Booted(boot) && Fits(depth) && load.Program?
    ensures es == [TimerTick(0, frame), TimerTick(0, frame), TimerTick(0, frame)]
    ensures IsStartup(boot, esp, ebp, ss, es)
    ensures Inv(ss[3]) && Starts(ss[3], load) && !Inv(Execute(ss[3], ss[3].esp0 - depth, 0, load))
  {
    ss, es := PlainStartup(boot, esp, ebp, frame);
    assert !ss[3].Live(3);
    ExecuteKeepsInvariantIff(ss[3], depth, 0, load);
  }

  /**
    From every boot, with terminal 1 brought up: a program that shell 1 starts keeps the invariant, but
    a program that this one starts in turn gets a slot above it and breaks the invariant.
   */
  lemma NestedExecuteAfterStartup(boot: State, esp: int, ebp: int, frame: int, depth: nat, load: Load,
                                  depth': nat, load': Load)
    returns (ss: seq<State>, es: seq<Event>, c: State)
    requires Booted(boot) && Fits(depth) && Fits(depth') && load.Program? && load'.Program?
    ensures es == [TimerTick(0, frame), TimerTick(0, frame), TimerTick(0, frame)]
    ensures IsStartup(boot, esp, ebp, ss, es) && Inv(ss[3])
    ensures c == Execute(ss[3].(displayed := 1), ss[3].esp0 - depth, 0, load) && Inv(c) && c.Running() == 3
    ensures Starts(c, load') && !Inv(Execute(c, c.esp0 - depth', 0, load'))
  {
    ss, es := PlainStartup(boot, esp, ebp, frame);
    var s := ss[3].(displayed := 1);
    ShowKeeps(ss[3], 1);
    assert !ss[3].Live(3) && !ss[3].Live(4);
    assert s.Live(0) && s.Live(1) && s.Live(2) && !s.Live(3) && !s.Live(4);
    ExecuteKeeps(s, depth, 0, load);
    c := Execute(s, s.esp0 - depth, 0, load);
    assert c.Live(3) && !c.Live(4);
    ExecuteKeepsInvariantIff(c, depth', 0, load');
  }

  /**
    From every boot on a stack in the top slot, without a key being pressed: shell 1 halts.  The next
    tick saves the boot mapping over shell 0's context and resumes shell 1, with its slot free.
   */
  lemma ShellHaltAfterStartup(boot: State, esp: int, ebp: int, frame: int, depth: nat, depth': nat, ebp': int)
    returns (ss: seq<State>, es: seq<Event>, h: State, r: State)
    requires Booted(boot) && OnStack(esp, 0) && Fits(depth) && Fits(depth')
    ensures es == [TimerTick(0, frame), TimerTick(0, frame), TimerTick(0, frame)]
    ensures IsStartup(boot, esp, ebp, ss, es) && Inv(ss[3]) && ss[3].Running() == 1
    ensures ValidEntry(ss[3], depth) && h == Halt(ss[3], depth)
    ensures h.esp == esp && h.oteMb == boot.oteMb && h.Running() == 0
    ensures ValidEntry(h, depth') && r == Tick(h, depth', ebp')
    ensures r.sched[0] == Context(StackBase(0) - depth', ebp', boot.oteMb)
    ensures r.inService == 1 && r.esp == ss[3].sched[1].esp && r.esp0 == StackBase(1) && !r.Live(1)
  {
    ss, es := PlainStartup(boot, esp, ebp, frame);
    StackTellsProcess(esp, 0);
    h, r := ShellHaltThenTick(ss[3], depth, depth', ebp');
  }
}
