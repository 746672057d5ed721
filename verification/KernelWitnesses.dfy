/** Requests, reached from boot, on which the kernel does not keep its schedule. */
module KernelWitnesses {
  import opened Paging
  import opened Processes
  import opened Scheduling
  import opened Isolation
  import opened Failures

  /** `n` requests for one more shell, each read successfully. */
  function Shells(n: nat): seq<Event> { if n == 0 then [] else [Creation(SHELL, 0)] + Shells(n - 1) }

  /** As long as frames last every request is accepted and takes two of them. */
  lemma {:induction false} ShellsStart(k: Kernel, m: map<Slot, nat>, n: nat)
    requires Scheduled(k) && Isolated(k, m) && k.active + n <= 15 && k.pages.free >= 2 * n
    ensures RunAllowed(k, Shells(n))
    ensures Run(k, Shells(n)).active == k.active + n && Run(k, Shells(n)).pages.free == k.pages.free - 2 * n
    decreases n
  {
    hide Scheduled, Isolated, Create, Allowed, Runnable;
    if n > 0 {
      var e := Creation(SHELL, 0);
      ShellFits(k, m);
      var m1 := ShellStarts(k, m);
      assert Shells(n)[0] == e && Shells(n)[1..] == Shells(n - 1);
      StepKeeps(k, e);
      ShellsStart(Step(k, e), m1, n - 1);
    }
  }

  lemma ShellFits(k: Kernel, m: map<Slot, nat>)
    requires Scheduled(k) && Isolated(k, m) && k.active <= 14 && k.pages.free >= 2
    ensures Suitable(SHELL) && Refusal(k, SHELL) == 0 && Allowed(k, Creation(SHELL, 0))
  {
    hide Scheduled, Isolated;
    FramesNeededExact(SHELL.size);
    assert PageOf(SHELL.entry) == 0;
  }

  lemma ShellStarts(k: Kernel, m: map<Slot, nat>) returns (m': map<Slot, nat>)
    requires Scheduled(k) && Isolated(k, m) && k.active <= 14 && Suitable(SHELL) && Refusal(k, SHELL) == 0
    ensures Runnable(k, Creation(SHELL, 0)) && Isolated(Step(k, Creation(SHELL, 0)), m')
    ensures Step(k, Creation(SHELL, 0)).active == k.active + 1
    ensures Step(k, Creation(SHELL, 0)).pages.free == k.pages.free - 2
  {
    hide Isolated, Suitable, Placed, CodeFrame, StackFrame, Unset, CountUsed, FramesInRange;
    CreationRunnable(k, SHELL, 0);
    m' := CreateIsolated(k, m, SHELL);
  }

  /** An executable whose size wraps the frame estimate round to 0. */
  const WRAPPED: Load := Load(SHELL.name, 0, 0xFFC0_0000)

  /** After the run `es` of 14 more creations, with 15 shells running, a 16th request is still accepted
      when its size wraps round; the schedule breaks, and further ticks lead the search past slot 15. */
  lemma SixteenthProcess() returns (es: seq<Event>)
    ensures Scheduled(Booted()) && RunAllowed(Booted(), es)
    ensures var k := Run(Booted(), es);
            && k.active == 15 && k.pages.free == 1 && Refusal(k, WRAPPED) == 0
            && Runnable(k, Creation(WRAPPED, 0)) && !Scheduled(Step(k, Creation(WRAPPED, 0)))
            && var k' := Step(k, Creation(WRAPPED, 0));
               && Full(k') && k'.next <= 15
               && forall fs :: |fs| == 15 - k'.next ==> Ticked(k', fs).next + 1 == PROCESS_COUNT
  {
    hide Scheduled, Isolated, Booted, Create, Runnable, Run, RunAllowed;
    var m := BootGood();
    var n := 14;
    es := Shells(n);
    ShellsStart(Booted(), m, n);
    RunScheduled(Booted(), es);
    WrappedAccepted(Run(Booted(), es));
    CreateKeepsExactly(Run(Booted(), es), WRAPPED, 0);
    LastSlotTaken(Run(Booted(), es), WRAPPED);
    LeavesTable(Step(Run(Booted(), es), Creation(WRAPPED, 0)));
  }

  lemma LeavesTable(k: Kernel)
    requires Full(k)
    ensures forall fs :: k.next + |fs| == 15 ==> Ticked(k, fs).next + 1 == PROCESS_COUNT
  {
    hide Full;
    forall fs: seq<Frame> | k.next + |fs| == 15 ensures Ticked(k, fs).next + 1 == PROCESS_COUNT {
      SearchLeavesTable(k, fs);
    }
  }

  lemma WrappedAccepted(k: Kernel)
    requires k.active == 15 && k.pages.free == 1
    ensures Refusal(k, WRAPPED) == 0
  {
    assert FramesNeeded(WRAPPED.size) == 0;
  }

  /** A shell that ends itself right after boot: no process is found running at the next tick. */
  lemma LastProcess(junk: Flag, stray: Pages)
    ensures Scheduled(Booted()) && Runnable(Booted(), Destruction(0, junk, stray))
    ensures var k := Destroy(Booted(), 0, junk, stray);
            !Scheduled(k) && FirstRunning(k.procs, k.used, 0) == 16
  {
    hide Booted, Destroy, Isolated, FramesInRange, Unset, CountUsed, SlotOk, DirectoriesDistinct;
    var m := BootGood();
    DestroyKeepsExactly(Booted(), 0, junk, stray);
    NoneRunning(Booted(), junk, stray);
  }

  /** Asking for pid 0, which is neither running nor due next, breaks the count of a schedule in order. */
  ghost predicate CountBreaks(k: Kernel, junk: Flag, stray: Pages) {
    && Scheduled(k) && k.active == CountUsed(k.used, 0) && 0 != k.cur && 0 != k.next
    && Runnable(k, Destruction(0, junk, stray))
    && var k' := Destroy(k, 0, junk, stray);
       !Scheduled(k') && k'.used == k.used && k'.active == k.active - 1
  }

  /** After boot, two more shells, two ticks and the end of the first shell are all in order, and leave slot
      0 free. Asking for pid 0 once more then takes a process off the count that was never on it. */
  lemma FirstShellTwice(f: Frame, junk: Flag, stray: Pages) returns (es: seq<Event>)
    ensures Scheduled(Booted()) && RunAllowed(Booted(), es) && !Run(Booted(), es).used[0]
    ensures var k := Run(Booted(), es);
            k.active == 2 && CountBreaks(k, junk, stray)
  {
    hide Booted, Scheduled, Isolated, Create, Destroy, Tick, Runnable, Allowed, Run, RunAllowed, CountUsed;
    var m := BootGood();
    var k0 := Booted();
    ShellFits(k0, m);
    var m1, k1 := NextShell(k0, m, 1);
    ShellFits(k1, m1);
    var m2, k2 := NextShell(k1, m1, 2);
    var k3 := TickTo(k2, f, 1);
    var k4 := TickTo(k3, f, 2);
    var k5 := ShellEnds(k4, junk, stray);
    es := [Creation(SHELL, 0), Creation(SHELL, 0), TimerTick(f), TimerTick(f), Destruction(0, junk, stray)];
    FiveSteps(k0, es, k1, k2, k3, k4, k5);
    ScheduledCount(k5);
    DestroyFree(k5, junk, stray);
    DestroyKeepsExactly(k5, 0, junk, stray);
  }

  lemma ScheduledCount(k: Kernel)
    requires Scheduled(k)
    ensures k.active == CountUsed(k.used, 0)
  {
  }

  /** One more shell, in slot `s`. */
  lemma NextShell(k: Kernel, m: map<Slot, nat>, s: nat) returns (m': map<Slot, nat>, k': Kernel)
    requires Scheduled(k) && Isolated(k, m) && k.active <= 14 && Suitable(SHELL) && Refusal(k, SHELL) == 0
    requires k.cur == k.next == 0 && s < 15 && forall i :: 0 <= i < 16 ==> (k.used[i] <==> i < s)
    ensures Allowed(k, Creation(SHELL, 0)) && Runnable(k, Creation(SHELL, 0)) && k' == Step(k, Creation(SHELL, 0))
    ensures Scheduled(k') && Isolated(k', m') && k'.active == k.active + 1 && k'.pages.free == k.pages.free - 2
    ensures k'.cur == k'.next == 0 && forall i :: 0 <= i < 16 ==> (k'.used[i] <==> i <= s)
  {
    hide Scheduled, Isolated, Suitable, Placed, CodeFrame, StackFrame, InitialContext;
    var e := Creation(SHELL, 0);
    m' := ShellStarts(k, m);
    k' := Step(k, e);
    StepKeeps(k, e);
    LowestFree(k.used, s);
  }

  lemma LowestFree(used: Used, s: nat)
    requires s < 16 && forall i :: 0 <= i < 16 ==> (used[i] <==> i < s)
    ensures FirstFree(used, 0) == s
  {
    var i := FirstFree(used, 0);
    assert !used[s] && (i < 16 ==> !used[i]);
  }

  /** A tick with the first three slots in use, after which slot `s` is due. */
  lemma TickTo(k: Kernel, f: Frame, s: nat) returns (k': Kernel)
    requires Scheduled(k) && s < 3 && k.next + 1 == s && forall i :: 0 <= i < 16 ==> (k.used[i] <==> i < 3)
    ensures Allowed(k, TimerTick(f)) && Runnable(k, TimerTick(f)) && k' == Step(k, TimerTick(f)) && Scheduled(k')
    ensures k'.cur == k.next && k'.next == s && k'.used == k.used && k'.active == k.active
  {
    hide Scheduled, Tick;
    StepKeeps(k, TimerTick(f));
    TickEffect(k, f);
    TickNext(k, f);
    k' := Step(k, TimerTick(f));
    assert k.used[s] && Distance(k.next, k'.next) <= Distance(k.next, s) == 1;
  }

  lemma ShellEnds(k: Kernel, junk: Flag, stray: Pages) returns (k': Kernel)
    requires Scheduled(k) && k.cur == 1 && k.next == 2 && k.used[0]
    ensures Allowed(k, Destruction(0, junk, stray)) && Runnable(k, Destruction(0, junk, stray))
    ensures k' == Step(k, Destruction(0, junk, stray)) && Scheduled(k')
    ensures k'.cur == 1 && k'.next == 2 && !k'.used[0] && k'.active == k.active - 1
  {
    hide Scheduled, ReleaseAll, FramesInRange;
    StepKeeps(k, Destruction(0, junk, stray));
    PidFound(k, 0);
    k' := Step(k, Destruction(0, junk, stray));
  }

  lemma FiveSteps(k0: Kernel, es: seq<Event>, k1: Kernel, k2: Kernel, k3: Kernel, k4: Kernel, k5: Kernel)
    requires |es| == 5 && Scheduled(k0) && Scheduled(k1) && Scheduled(k2) && Scheduled(k3) && Scheduled(k4)
    requires Scheduled(k5)
    requires Allowed(k0, es[0]) && Runnable(k0, es[0]) && k1 == Step(k0, es[0])
    requires Allowed(k1, es[1]) && Runnable(k1, es[1]) && k2 == Step(k1, es[1])
    requires Allowed(k2, es[2]) && Runnable(k2, es[2]) && k3 == Step(k2, es[2])
    requires Allowed(k3, es[3]) && Runnable(k3, es[3]) && k4 == Step(k3, es[3])
    requires Allowed(k4, es[4]) && Runnable(k4, es[4]) && k5 == Step(k4, es[4])
    ensures RunAllowed(k0, es) && Run(k0, es) == k5
  {
    hide Scheduled, Allowed, Runnable, Step;
    OneStep(k4, es[4..]);
    OneStep(k3, es[3..]);
    OneStep(k2, es[2..]);
    OneStep(k1, es[1..]);
    OneStep(k0, es);
    assert es[4..][1..] == [] && es[3..][1..] == es[4..] && es[2..][1..] == es[3..] && es[1..][1..] == es[2..];
  }

  lemma OneStep(k: Kernel, es: seq<Event>)
    requires es != [] && Scheduled(k) && Allowed(k, es[0]) && Runnable(k, es[0]) && Scheduled(Step(k, es[0]))
    ensures RunAllowed(Step(k, es[0]), es[1..]) ==>
              RunAllowed(k, es) && Run(k, es) == Run(Step(k, es[0]), es[1..])
  {
    hide Scheduled, Allowed, Runnable, Step;
  }
}
