/** What a process resumes with, register by register: what was interrupted, or what a new process starts from. */
module Contexts {
  import opened Paging
  import opened Processes
  import opened Scheduling
  import opened Isolation

  // ----- interruption -----

  /** The context `c` holds the registers of the interrupted frame `f` on page directory `d`. */
  predicate Holds(c: Context, f: Frame, d: int) {
    && c.cpu == f.cpu && c.eip == f.eip && c.cs == f.cs && c.eflags == f.eflags && c.esp == f.cpu.esp && c.ss == 0x23
    && c.directory == d
  }

  /** A tick saves the interrupted registers, each in its own place, with the active page directory, into the
      slot of the process that ran, and touches no other context. */
  lemma TickSaves(k: Kernel, f: Frame)
    requires Scheduled(k)
    ensures Runnable(k, TimerTick(f)) && Holds(Tick(k, f).procs[k.cur].context, f, k.cr3)
    ensures forall i :: 0 <= i < 16 && i != k.cur ==> Tick(k, f).procs[i].context == k.procs[i].context
  {
    hide Unset, CountUsed, FramesInRange, DirectoriesDistinct, SlotOk;
    TickEffect(k, f);
  }

  datatype Interruption = Never | Last(f: Frame)

  /** The frame in which the process in slot `q` was last interrupted during a run. */
  ghost function LastFrame(k: Kernel, es: seq<Event>, q: nat, last: Interruption): Interruption
    requires Scheduled(k) && RunAllowed(k, es)
    decreases |es|
  {
    if es == [] then last
    else
      StepKeeps(k, es[0]);
      LastFrame(Step(k, es[0]), es[1..], q, if es[0].TimerTick? && q == k.cur then Last(es[0].f) else last)
  }

  /** Before the interruptions of `last`, the process has the registers `c`. */
  predicate Keeps(p: Pcb, c: Context, last: Interruption) {
    match last
    case Never => p.context == c
    case Last(f) => Holds(p.context, f, c.directory)
  }

  /** Over any run, a process that stays live resumes with exactly the registers of the last frame in which it
      was itself interrupted, on its own page directory, and with those it had if it never was. */
  lemma ResumesWhereInterrupted(k: Kernel, es: seq<Event>, q: nat)
    requires Scheduled(k) && RunAllowed(k, es) && q < 15 && k.used[q] && Survives(es, q)
    ensures Keeps(Run(k, es).procs[q], k.procs[q].context, LastFrame(k, es, q, Never))
  {
    hide Scheduled, RunAllowed, Run, LastFrame;
    RunKeeps(k, es, q, k.procs[q].context, Never);
  }

  lemma {:induction false} RunKeeps(k: Kernel, es: seq<Event>, q: nat, c: Context, last: Interruption)
    requires Scheduled(k) && RunAllowed(k, es) && q < 15 && k.used[q] && Survives(es, q)
    requires Keeps(k.procs[q], c, last) && k.procs[q].context.directory == c.directory
    ensures Keeps(Run(k, es).procs[q], c, LastFrame(k, es, q, last))
    decreases |es|
  {
    hide Scheduled, Step, Allowed, Keeps;
    if es != [] {
      var e := es[0];
      StepKeeps(k, e);
      StepAdvances(k, e, q);
      StepDirectory(k, e, q);
      StepSaves(k, e, q, c, last);
      assert forall i :: 0 <= i < |es[1..]| ==> es[1..][i] == es[i + 1];
      RunKeeps(Step(k, e), es[1..], q, c, if e.TimerTick? && q == k.cur then Last(e.f) else last);
    }
  }

  lemma StepSaves(k: Kernel, e: Event, q: nat, c: Context, last: Interruption)
    requires Scheduled(k) && Allowed(k, e) && q < 15 && k.used[q] && (e.Destruction? ==> e.pid != q)
    requires Keeps(k.procs[q], c, last) && k.procs[q].context.directory == c.directory
    ensures Runnable(k, e)
    ensures Keeps(Step(k, e).procs[q], c, if e.TimerTick? && q == k.cur then Last(e.f) else last)
  {
    hide Unset, CountUsed, FramesInRange, DirectoriesDistinct, SlotOk, Tick, Create, Destroy, Holds;
    StepKeeps(k, e);
    if e.TimerTick? { TickSaves(k, e.f); } else { OtherContext(k, e, q); }
  }

  lemma OtherContext(k: Kernel, e: Event, q: nat)
    requires Scheduled(k) && Allowed(k, e) && q < 15 && k.used[q] && !e.TimerTick? && (e.Destruction? ==> e.pid != q)
    ensures Runnable(k, e) && Step(k, e).procs[q].context == k.procs[q].context
  {
    hide Unset, CountUsed, FramesInRange, DirectoriesDistinct, SlotOk, Search, InitialContext;
    StepContext(k, e, q);
  }

  // ----- creation -----

  /** Where a new process starts: at its load address, on the user's code and data segments, with an empty
      stack below the kernel, interrupts on, on its own page directory. Flags and registers not set keep what
      the slot held. */
  predicate StartsAt(c: Context, before: Context, entry: nat, d: int) {
    && c.eip == entry && c.cs == 0x1B && c.ss == 0x23
    && c.cpu.ds == 0x23 && c.cpu.es == 0x23 && c.cpu.fs == 0x23 && c.cpu.gs == 0x23
    && c.esp == 0xBFFF_FFFC && c.cpu.esp == 0xBFFF_FFFC && c.cpu.ebp == 0xBFFF_FFFC
    && FlagsOn(c.eflags, before.eflags)
    && c.cpu.others == before.cpu.others && c.directory == d
  }

  /** Bits 1 and 9 are set, the others as before. */
  predicate FlagsOn(x: bv32, before: bv32) { x & 0x202 == 0x202 && x & 0xFFFF_FDFD == before & 0xFFFF_FDFD }

  lemma FlagBits(x: bv32)
    ensures FlagsOn(x | 0x202, x)
  {
  }

  /** An accepted creation whose load succeeds: the new process, in the lowest free slot, has that slot's number
      as pid, is ready, has the name asked for, notes its two frames above 0xC0000000, and starts as above; no
      other process changes. */
  lemma CreationStarts(k: Kernel, load: Load)
    requires Refusal(k, load) == 0 && FirstFree(k.used, 0) < 16 && FirstUnset(k.pages.used, 0) < 32
    ensures var k', i, d := Create(k, load, 0), FirstFree(k.used, 0), FirstUnset(k.pages.used, 0);
            var p := k'.procs[i];
            && p.pid == i && p.status == READY && p.name == load.name && p.frames == 2
            && p.addresses[0] == (CodeFrame(k.pages) + 0xC000_0000) % 0x1_0000_0000
            && p.addresses[1] == (StackFrame(k.pages, load.entry) + 0xC000_0000) % 0x1_0000_0000
            && p.addresses[2..] == k.procs[i].addresses[2..]
            && StartsAt(p.context, k.procs[i].context, load.entry, d)
            && (forall j :: 0 <= j < 16 && j != i ==> k'.procs[j] == k.procs[j] && k'.used[j] == k.used[j])
            && k'.used[i] && k'.active == k.active + 1 && k'.cr3 == k.cr3 && k'.cur == k.cur && k'.next == k.next
  {
    hide Placed, CodeFrame, StackFrame, InitialContext, StartsAt;
    InitialStarts(k.procs[FirstFree(k.used, 0)].context, load.entry, FirstUnset(k.pages.used, 0));
  }

  lemma InitialStarts(c: Context, entry: nat, d: int)
    ensures StartsAt(InitialContext(c, entry, d), c, entry, d)
  {
    hide FlagsOn;
    FlagBits(c.eflags);
  }

  /** After boot the shell is about to run from address 0, with nothing in the registers the kernel does not
      set. */
  lemma ShellStarts()
    ensures var p := Booted().procs[0];
            && p.pid == 0 && p.status == RUNNING && p.name == [0x73, 0x68, 0x65, 0x6C, 0x6C, 0, 0, 0]
            && p.context.eip == 0 && p.context.cs == 0x1B && p.context.ss == 0x23
            && p.context.esp == 0xBFFF_FFFC && p.context.cpu == Cpu(0x23, 0x23, 0x23, 0x23, 0xBFFF_FFFC, 0xBFFF_FFFC, 0)
            && SHELL.size == 0x10_0000 && p.context.eflags == 0x202 && p.context.directory == 0 && Booted().cr3 == 0
  {
    hide Placed, CodeFrame, StackFrame;
    ShellAccepted();
    CreationStarts(Setup(), SHELL);
  }

  // ----- refusals -----

  /** What creation answers. For a size that does not wrap in 32 bits, code 3 says that the executable and the
      stack need more frames of 4 MiB than are free, or more than 8. */
  lemma CreationAnswers(k: Kernel, load: Load, loaded: int)
    requires load.size < 0x1_0000_0000 - 0x40_0000
    ensures var few := k.pages.free < 1 || load.size > 0x40_0000 * (k.pages.free - 1) || load.size > 0x40_0000 * 7;
            CreateCode(k, load, loaded) ==
            if k.active >= 16 then 1
            else if load.entry >= 0xC000_0000 then 2
            else if few then 3
            else if loaded != 0 then 4
            else 0
  {
    var n := load.size + 0x40_0000;
    assert n % 0x1_0000_0000 == n;
    FramesFor(load.size, k.pages.free);
    FramesFor(load.size, 8);
  }

  lemma FramesFor(size: nat, free: int)
    requires size < 0x1_0000_0000 - 0x40_0000
    ensures FramesNeeded(size) > free <==> free < 1 || size > 0x40_0000 * (free - 1)
  {
    var n := size + 0x40_0000;
    assert n % 0x1_0000_0000 == n;
    var q, r := n / 0x40_0000, n % 0x40_0000;
    assert n == 0x40_0000 * q + r && q >= 1;
  }

  /** A creation refused changes nothing. */
  lemma RefusedUntouched(k: Kernel, load: Load, loaded: int)
    requires CreateCode(k, load, loaded) in {1, 2, 3}
    ensures Refusal(k, load) != 0 && Create(k, load, loaded) == k
  {
  }
}
