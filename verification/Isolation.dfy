/** Boot, and the separation of processes in physical memory. */
module Isolation {
  import opened Paging
  import opened Processes
  import opened Scheduling

  const STACK_PAGE := 0x2FF

  /** The 32-bit frame estimate is two, one for code and one for the stack, exactly for executables of 1
      byte to 4 MiB. */
  lemma FramesNeededExact(size: nat)
    requires size < WORD
    ensures FramesNeeded(size) == 2 <==> 1 <= size <= FRAME_SIZE
  {
    var s := size + FRAME_SIZE;
    if s >= WORD { assert s % WORD == s - WORD; }
  }

  /** It is two at least unless the executable is empty or the sum wraps round. */
  lemma FramesAtLeast(size: nat)
    requires size < WORD
    ensures FramesNeeded(size) >= 2 <==> 1 <= size < WORD - FRAME_SIZE
  {
    var s := size + FRAME_SIZE;
    if s >= WORD { assert s % WORD == s - WORD; }
  }

  // ----- what a process owns -----

  /** The process in slot `i` has its code frame on page `c` of its directory, its stack frame on the
      last page below the kernel, the kernel above, and nothing else. */
  ghost predicate Owns(k: Kernel, m: map<Slot, nat>, i: nat, c: nat)
    requires i < 16
  {
    var d := k.procs[i].context.directory;
    && 0 <= d < DIRECTORY_COUNT && k.pages.used[d] && c < KERNEL_PAGE && c != STACK_PAGE
    && Slot(d, c) in m && Slot(d, STACK_PAGE) in m
    && (forall page :: Slot(d, page) in m ==> page == c || page == STACK_PAGE)
    && k.pages.dirs[d][KERNEL_PAGE] == KERNEL_PDE
    && (forall page :: 0 <= page < PDE_COUNT && page != c && page != STACK_PAGE && page != KERNEL_PAGE ==>
          k.pages.dirs[d][page] == NO_PDE)
    && k.procs[i].addresses[0] == NotedAddress(m[Slot(d, c)])
    && k.procs[i].addresses[1] == NotedAddress(m[Slot(d, STACK_PAGE)])
    && (forall j :: 2 <= j < 8 ==> k.procs[i].addresses[j] == 0)
  }

  /** Every directory in use maps the kernel. */
  predicate KernelEverywhere(p: Pages) {
    forall d :: 0 <= d <= KERNEL_DIRECTORY && (d == KERNEL_DIRECTORY || p.used[d]) ==> KernelMapped(p, d)
  }

  /** `m` accounts for every frame: frame 0 is the kernel's, every user page the processor would
      translate is accounted for, each process owns its two pages, every directory in use maps the kernel, and
      unused directories are empty. */
  ghost predicate Isolated(k: Kernel, m: map<Slot, nat>) {
    && Consistent(k.pages, m) && FramesInRange(k.pages) && KernelEverywhere(k.pages)
    && Slot(KERNEL_DIRECTORY, 0) in m && m[Slot(KERNEL_DIRECTORY, 0)] == 0
    && (forall s :: s in m ==> s == Slot(KERNEL_DIRECTORY, 0) || (s.dir < DIRECTORY_COUNT && k.pages.used[s.dir]))
    && (forall s :: Visible(k.pages, s) ==> s in m)
    && (forall i :: 0 <= i < 16 && k.used[i] ==> exists c :: Owns(k, m, i, c))
    && (forall i :: 0 <= i < 16 && !k.used[i] ==> k.procs[i] == ZERO_PCB)
    && (forall d :: 0 <= d < DIRECTORY_COUNT && !k.pages.used[d] ==> k.pages.dirs[d] == EMPTY_DIRECTORY)
  }

  /** Two user pages the processor would translate never show the same frame, and only the kernel's
      directory shows frame 0. */
  lemma FramesApart(k: Kernel, m: map<Slot, nat>, s: Slot, s': Slot)
    requires Isolated(k, m) && Visible(k.pages, s) && Visible(k.pages, s') && s != s'
    ensures k.pages.dirs[s.dir][s.page].frame != k.pages.dirs[s'.dir][s'.page].frame
    ensures s.dir != KERNEL_DIRECTORY ==> k.pages.dirs[s.dir][s.page].frame != 0
  {
    assert Mapped(k.pages, m, s) && Mapped(k.pages, m, s') && Mapped(k.pages, m, Slot(KERNEL_DIRECTORY, 0));
  }

  // ----- creation -----

  /** A load that is not empty and does not wrap the frame estimate round, at an address below the kernel
      and off the stack page. */
  predicate Suitable(load: Load) {
    1 <= load.size < WORD - FRAME_SIZE && load.entry < KERNEL_BASE && PageOf(load.entry) != STACK_PAGE
  }

  lemma TakeKeeps(p: Pages, m: map<Slot, nat>)
    requires Consistent(p, m) && FirstUnset(p.used, 0) < DIRECTORY_COUNT
    requires forall s :: s in m ==> s.dir != FirstUnset(p.used, 0)
    ensures Consistent(TakeDirectory(p), m)
  {
    hide Injective, Covered, Unset;
    forall s | s in m ensures Mapped(TakeDirectory(p), m, s) { assert Mapped(p, m, s); }
  }

  lemma AddressPages(entry: nat)
    requires entry < KERNEL_BASE
    ensures PageOf(entry) < KERNEL_PAGE && PageOf(STACK_ADDRESS) == STACK_PAGE
  {
  }

  /** The frames creation takes: both allocations succeed, on fresh frames. */
  lemma PlacedFrames(p: Pages, m: map<Slot, nat>, entry: nat) returns (m': map<Slot, nat>)
    requires Consistent(p, m) && p.free >= 2 && FirstUnset(p.used, 0) < DIRECTORY_COUNT
    requires forall s :: s in m ==> s.dir != FirstUnset(p.used, 0)
    requires entry < KERNEL_BASE && PageOf(entry) != STACK_PAGE
    ensures var d := FirstUnset(p.used, 0);
            && CodeFrame(p) >= 0 && StackFrame(p, entry) >= 0 && Placed(p, entry).free == p.free - 2
            && CodeFrame(p) !in m.Values && StackFrame(p, entry) !in m.Values && CodeFrame(p) != StackFrame(p, entry)
            && m' == m[Slot(d, PageOf(entry)) := CodeFrame(p)][Slot(d, STACK_PAGE) := StackFrame(p, entry)]
            && Consistent(Placed(p, entry), m')
  {
    hide Consistent, PageOf, Allocate, NextFrame;
    AddressPages(entry);
    var d := FirstUnset(p.used, 0);
    TakeKeeps(p, m);
    var p0 := TakeDirectory(p);
    AllocateKeeps(p0, m, d, entry);
    var p1, m1 := Allocate(p0, d, entry), m[Slot(d, PageOf(entry)) := NextFrame(p0)];
    AllocateKeeps(p1, m1, d, STACK_ADDRESS);
    forall f | f in m.Values ensures f in m1.Values {
      var s :| s in m && m[s] == f;
      assert m1[s] == f;
    }
    assert m1[Slot(d, PageOf(entry))] == NextFrame(p0);
    m' := m1[Slot(d, STACK_PAGE) := NextFrame(p1)];
  }

  /** What placing a process does to the directories. */
  lemma PlacedTables(p: Pages, entry: nat)
    requires FirstUnset(p.used, 0) < DIRECTORY_COUNT && CodeFrame(p) >= 0 && StackFrame(p, entry) >= 0
    requires entry < KERNEL_BASE && PageOf(entry) != STACK_PAGE
    ensures var d, p' := FirstUnset(p.used, 0), Placed(p, entry);
            && p'.used == p.used[d := true]
            && p'.dirs == p.dirs[d := p.dirs[d][KERNEL_PAGE := KERNEL_PDE]
                                              [PageOf(entry) := Pde(USER_FLAG, CodeFrame(p))]
                                              [STACK_PAGE := Pde(USER_FLAG, StackFrame(p, entry))]]
  {
    AddressPages(entry);
  }

  lemma PlacedKernel(p: Pages, entry: nat)
    requires FirstUnset(p.used, 0) < DIRECTORY_COUNT && CodeFrame(p) >= 0 && StackFrame(p, entry) >= 0
    requires entry < KERNEL_BASE && PageOf(entry) != STACK_PAGE && KernelEverywhere(p)
    ensures KernelEverywhere(Placed(p, entry)) && KernelMapped(Placed(p, entry), FirstUnset(p.used, 0))
  {
    hide Placed, CodeFrame, StackFrame, PageOf;
    AddressPages(entry);
    PlacedTables(p, entry);
    assert KernelMapped(p, KERNEL_DIRECTORY);
    var p', own := Placed(p, entry), FirstUnset(p.used, 0);
    forall d | 0 <= d <= KERNEL_DIRECTORY && (d == KERNEL_DIRECTORY || p'.used[d]) ensures KernelMapped(p', d) {
      if d != own { assert KernelMapped(p, d); }
    }
  }

  /** An accepted creation of a suitable load succeeds in both allocations, on two frames nothing mapped
      before, which become the code and the stack of the new process, and keeps all processes isolated. */
  lemma CreateIsolated(k: Kernel, m: map<Slot, nat>, load: Load) returns (m': map<Slot, nat>)
    requires Isolated(k, m) && Refusal(k, load) == 0 && Suitable(load)
    requires FirstFree(k.used, 0) < 16 && FirstUnset(k.pages.used, 0) < DIRECTORY_COUNT
    requires k.pages.free == Unset(k.pages.taken, 0)
    ensures var code, stack := CodeFrame(k.pages), StackFrame(k.pages, load.entry);
            var d := FirstUnset(k.pages.used, 0);
            && code >= 0 && stack >= 0 && code != stack && code !in m.Values && stack !in m.Values
            && m' == m[Slot(d, PageOf(load.entry)) := code][Slot(d, STACK_PAGE) := stack]
            && Create(k, load, 0).pages.free == k.pages.free - 2
    ensures Isolated(Create(k, load, 0), m')
  {
    hide Consistent, FramesInRange, PageOf, Placed, CodeFrame, StackFrame, NotedAddress, Unset, KernelEverywhere;
    FramesAtLeast(load.size);
    AddressPages(load.entry);
    var i, d, c := FirstFree(k.used, 0), FirstUnset(k.pages.used, 0), PageOf(load.entry);
    m' := PlacedFrames(k.pages, m, load.entry);
    PlacedTables(k.pages, load.entry);
    PlacedKernel(k.pages, load.entry);
    PlacedPages(k.pages, load.entry);
    var k' := Create(k, load, 0);
    assert Owns(k', m', i, c);
    forall j | 0 <= j < 16 && k'.used[j] ensures exists c :: Owns(k', m', j, c) {
      if j != i {
        var cj :| Owns(k, m, j, cj);
        assert Owns(k', m', j, cj);
      }
    }
    forall s | Visible(k'.pages, s) ensures s in m' {
      if s.dir != d { assert Visible(k.pages, s); }
    }
  }

  lemma TickIsolated(k: Kernel, m: map<Slot, nat>, f: Frame)
    requires Isolated(k, m) && Scheduled(k)
    ensures Runnable(k, TimerTick(f)) && Isolated(Tick(k, f), m)
  {
    hide Consistent, FramesInRange, Scheduled, Tick, Unset;
    TickEffect(k, f);
    TickBasics(k);
    var k' := Tick(k, f);
    forall j | 0 <= j < 16 && k'.used[j] ensures exists c :: Owns(k', m, j, c) {
      var cj :| Owns(k, m, j, cj);
      assert Owns(k', m, j, cj);
    }
  }

  lemma TickBasics(k: Kernel)
    requires Scheduled(k)
    ensures k.cur < 16 && k.next < 16 && k.used[k.cur] && k.used[k.next] && k.cr3 == k.procs[k.cur].context.directory
  {
  }

  // ----- the frames run out before the slots -----

  /** The pages mapped for the processes in the slots from `i` on. */
  ghost function PagesOf(k: Kernel, m: map<Slot, nat>, i: nat): set<Slot> {
    set s | s in m && exists j :: i <= j < 16 && k.used[j] && k.procs[j].context.directory == s.dir
  }

  lemma {:induction false} PagesCount(k: Kernel, m: map<Slot, nat>, i: nat)
    requires Scheduled(k) && Isolated(k, m) && i <= 16
    ensures |PagesOf(k, m, i)| >= 2 * CountUsed(k.used, i)
    decreases 16 - i
  {
    hide Isolated, Scheduled, PagesOf;
    if i < 16 {
      PagesCount(k, m, i + 1);
      if k.used[i] {
        var a, b := OwnPages(k, m, i);
        OwnDirectory(k, i);
        PagesStep(k, m, i, a, b);
        FewerPages({a, b} + PagesOf(k, m, i + 1), PagesOf(k, m, i));
      } else {
        PagesSkip(k, m, i);
      }
    }
  }

  lemma PagesStep(k: Kernel, m: map<Slot, nat>, i: nat, a: Slot, b: Slot)
    requires i < 16 && k.used[i] && a in m && b in m && a.dir == b.dir == k.procs[i].context.directory
    requires forall j :: i < j < 16 && k.used[j] ==> k.procs[j].context.directory != k.procs[i].context.directory
    ensures {a, b} !! PagesOf(k, m, i + 1) && {a, b} + PagesOf(k, m, i + 1) <= PagesOf(k, m, i)
  {
  }

  lemma PagesSkip(k: Kernel, m: map<Slot, nat>, i: nat)
    requires i < 16 && !k.used[i]
    ensures PagesOf(k, m, i) == PagesOf(k, m, i + 1)
  {
  }

  lemma OwnPages(k: Kernel, m: map<Slot, nat>, i: nat) returns (a: Slot, b: Slot)
    requires Isolated(k, m) && i < 16 && k.used[i]
    ensures a in m && b in m && a != b && a.dir == b.dir == k.procs[i].context.directory
  {
    hide Consistent, FramesInRange, Unset, NotedAddress, Visible;
    var c :| Owns(k, m, i, c);
    a, b := Slot(k.procs[i].context.directory, c), Slot(k.procs[i].context.directory, STACK_PAGE);
  }

  lemma OwnDirectory(k: Kernel, i: nat)
    requires Scheduled(k) && i < 16 && k.used[i]
    ensures forall j :: i < j < 16 && k.used[j] ==> k.procs[j].context.directory != k.procs[i].context.directory
  {
  }

  lemma {:induction false} FewerPages(a: set<Slot>, b: set<Slot>)
    requires a <= b
    ensures |a| <= |b|
  {
    if a != {} {
      var s :| s in a;
      FewerPages(a - {s}, b - {s});
    }
  }

  /** Whenever the kernel accepts a suitable load there is a slot below the last: 15 processes and the
      kernel take 31 of the 32 frames. */
  lemma SlotLeft(k: Kernel, m: map<Slot, nat>, load: Load)
    requires Scheduled(k) && Isolated(k, m) && Suitable(load) && Refusal(k, load) == 0
    ensures k.active <= 14
  {
    hide Consistent, FramesInRange, Unset, CountUsed;
    FramesAtLeast(load.size);
    assert k.pages.free + |m| == FRAME_COUNT by { FramesCounted(k.pages, m); }
    PagesCount(k, m, 0);
    var kernel := Slot(KERNEL_DIRECTORY, 0);
    assert kernel !in PagesOf(k, m, 0) by {
      forall j | 0 <= j < 16 && k.used[j]
        ensures k.procs[j].context.directory < DIRECTORY_COUNT
      {
        assert SlotOk(k, j);
      }
    }
    FewerPages(PagesOf(k, m, 0) + {kernel}, m.Keys);
  }

  // ----- runs -----

  /** A run of ticks and creations of suitable loads whose reading succeeds. */
  predicate Creating(es: seq<Event>) {
    forall i :: 0 <= i < |es| ==>
      !es[i].Destruction? && (es[i].Creation? ==> Suitable(es[i].load) && es[i].loaded == 0)
  }

  /** The active page directory maps the kernel. */
  lemma ActiveKernel(k: Kernel, m: map<Slot, nat>)
    requires Scheduled(k) && Isolated(k, m)
    ensures 0 <= k.cr3 <= KERNEL_DIRECTORY && KernelMapped(k.pages, k.cr3)
  {
    hide Consistent, FramesInRange, Unset, CountUsed, Owns, KernelMapped;
    assert SlotOk(k, k.cur);
  }

  /** Any such run is allowed, however many creations it asks for, keeps processes isolated, and ends with the
      kernel mapped in the active page directory. */
  lemma {:induction false} RunIsolated(k: Kernel, m: map<Slot, nat>, es: seq<Event>) returns (m': map<Slot, nat>)
    requires Scheduled(k) && Isolated(k, m) && Creating(es)
    ensures RunAllowed(k, es) && Scheduled(Run(k, es)) && Isolated(Run(k, es), m')
    ensures 0 <= Run(k, es).cr3 <= KERNEL_DIRECTORY && KernelMapped(Run(k, es).pages, Run(k, es).cr3)
    decreases |es|
  {
    hide Scheduled, Isolated, Tick, Create, Refusal, Suitable, KernelMapped;
    m' := m;
    if es != [] {
      var m1 := StepIsolated(k, m, es[0]);
      StepKeeps(k, es[0]);
      assert forall i :: 0 <= i < |es[1..]| ==> es[1..][i] == es[i + 1];
      m' := RunIsolated(Step(k, es[0]), m1, es[1..]);
    } else {
      ActiveKernel(k, m);
    }
  }

  lemma StepIsolated(k: Kernel, m: map<Slot, nat>, e: Event) returns (m': map<Slot, nat>)
    requires Scheduled(k) && Isolated(k, m) && !e.Destruction? && (e.Creation? ==> Suitable(e.load) && e.loaded == 0)
    ensures Allowed(k, e) && Runnable(k, e) && Isolated(Step(k, e), m')
  {
    hide Isolated, Tick, Create, Suitable;
    m' := m;
    if e.TimerTick? {
      TickIsolated(k, m, e.f);
    } else if Refusal(k, e.load) == 0 {
      SlotLeft(k, m, e.load);
      CreateKeepsExactly(k, e.load, e.loaded);
      m' := CreateIsolated(k, m, e.load);
    } else {
      RefusedKeeps(k, e.load, e.loaded);
    }
  }

  // ----- boot -----

  const SHELL: Load := Load([0x73, 0x68, 0x65, 0x6C, 0x6C, 0, 0, 0], 0, 0x10_0000)

  /** Kernel setup: frame 0 mapped for the kernel, the shell created, the scheduler started. */
  function Setup(): Kernel { BootKernel().(pages := Allocate(FreshPages(), KERNEL_DIRECTORY, 0)) }

  lemma SetupIsolated() returns (m: map<Slot, nat>)
    ensures Isolated(Setup(), m) && Setup().pages.free == Unset(Setup().pages.taken, 0) == 31
    ensures Setup().used == BootKernel().used && Setup().procs == BootKernel().procs
    ensures Setup().pages.used == FreshPages().used
  {
    FreshConsistent();
    assert FirstUnset(FreshPages().taken, 0) == 0;
    assert PageOf(0) == 0;
    AllocateKeeps(FreshPages(), map[], KERNEL_DIRECTORY, 0);
    m := map[Slot(KERNEL_DIRECTORY, 0) := 0];
    assert m == map[][Slot(KERNEL_DIRECTORY, PageOf(0)) := NextFrame(FreshPages())];
    AllUnset(0);
    forall s | Visible(Setup().pages, s) ensures s in m {
      assert !Visible(FreshPages(), s);
    }
  }

  lemma ShellAccepted()
    ensures Refusal(Setup(), SHELL) == 0 && Suitable(SHELL)
    ensures FirstFree(Setup().used, 0) == 0 && FirstUnset(Setup().pages.used, 0) == 0
  {
    var m := SetupIsolated();
    assert FramesNeeded(SHELL.size) == 2 by { FramesNeededExact(SHELL.size); }
    assert PageOf(0) == 0;
  }

  function Booted(): Kernel
  {
    ShellAccepted();
    Switch(Create(Setup(), SHELL, 0))
  }

  /** The kernel comes up scheduled, with one process, isolated from the kernel. */
  lemma BootGood() returns (m: map<Slot, nat>)
    ensures Scheduled(Booted()) && Isolated(Booted(), m) && Booted().active == 1 && Booted().cur == 0
    ensures Booted().procs[0].name == SHELL.name && Booted().pages.free == 29 && Booted().next == 0
    ensures forall i :: 0 <= i < 16 ==> (Booted().used[i] <==> i == 0)
  {
    ShellAccepted();
    m := SetupIsolated();
    m := CreateIsolated(Setup(), m, SHELL);
    BootScheduled();
    SwitchIsolated(Create(Setup(), SHELL, 0), m);
  }

  /** After boot, no run of ticks and creations ever fills slot 15, so the search never leaves the
      process table. */
  lemma BootRuns(es: seq<Event>) returns (m: map<Slot, nat>)
    requires Creating(es)
    ensures Scheduled(Booted()) && RunAllowed(Booted(), es) && Isolated(Run(Booted(), es), m)
    ensures var k := Run(Booted(), es);
            && !k.used[15] && k.cur < 15 && k.next < 15 && k.active <= 15
            && 0 <= k.cr3 <= KERNEL_DIRECTORY && KernelMapped(k.pages, k.cr3)
  {
    hide Isolated, Creating, RunAllowed, Run, Booted, Scheduled;
    m := BootGood();
    m := RunIsolated(Booted(), m, es);
    ScheduledBounds(Run(Booted(), es));
  }

  lemma ScheduledBounds(k: Kernel)
    requires Scheduled(k)
    ensures !k.used[15] && k.cur < 15 && k.next < 15 && k.active <= 15
  {
    hide Unset, FramesInRange, SlotOk, DirectoriesDistinct, CountUsed;
    FewUsed(k.used, 0);
  }

  lemma {:induction false} FewUsed(used: Used, i: nat)
    requires i <= 15 && !used[15]
    ensures CountUsed(used, i) <= 15 - i
    decreases 15 - i
  {
    if i < 15 { FewUsed(used, i + 1); }
  }

  lemma BootScheduled()
    ensures Scheduled(Booted()) && Booted().active == 1 && Booted().cur == 0 && Booted().next == 0
    ensures forall i :: 0 <= i < 16 ==> (Booted().used[i] <==> i == 0)
  {
    hide Placed, CodeFrame, StackFrame, FramesInRange, Unset;
    ShellAccepted();
    var m := SetupIsolated();
    PlacedPages(Setup().pages, 0);
    UnsetChange(FreshPages().used, 0, true, 0);
    NoneUnset(0);
    var k1 := Create(Setup(), SHELL, 0);
    assert k1.used == Setup().used[0 := true];
    CountChange(Setup().used, 0, true, 0);
    NoneUsed(0);
    assert Search(SetStatus(k1.procs, 0, READY), k1.used, 0, 1) == 0;
    var k := Booted();
    assert forall i :: 0 < i < 16 ==> !k1.used[i];
    assert k.used == k1.used;
    assert Unset(k.pages.used, 0) == DIRECTORY_COUNT - k.active && k.active == CountUsed(k.used, 0);
    assert k.next < 15 && k.used[k.next] && !k.used[15] && DirectoriesDistinct(k);
    assert k.cr3 == k.procs[k.cur].context.directory && forall i :: 0 <= i < 16 ==> SlotOk(k, i);
  }

  lemma {:induction false} NoneUnset(i: nat)
    requires i <= 32
    ensures Unset(FreshPages().used, i) == 32 - i
    decreases 32 - i
  {
    if i < 32 { NoneUnset(i + 1); }
  }

  lemma {:induction false} NoneUsed(i: nat)
    requires i <= 16
    ensures CountUsed(BootKernel().used, i) == 0
    decreases 16 - i
  {
    if i < 16 { NoneUsed(i + 1); }
  }

  lemma SwitchIsolated(k: Kernel, m: map<Slot, nat>)
    requires Isolated(k, m) && k.cur < 16 && k.next < 15 && k.used[k.cur] && k.used[k.next]
    ensures Isolated(Switch(k), m)
  {
    hide Consistent, FramesInRange, Search;
    var k' := Switch(k);
    forall j | 0 <= j < 16 && k'.used[j] ensures exists c :: Owns(k', m, j, c) {
      var cj :| Owns(k, m, j, cj);
      assert Owns(k', m, j, cj);
    }
  }

  // ----- destruction as written -----

  /** Releases of pages that show a frame not taken do nothing. */
  lemma {:induction false} ReleaseIdle(p: Pages, d: nat, addresses: seq<nat>, junk: Flag)
    requires FramesInRange(p) && d <= KERNEL_DIRECTORY
    requires forall j :: 0 <= j < |addresses| ==> !p.taken[p.dirs[d][PageOf(addresses[j])].frame]
    ensures ReleaseAll(p, d, addresses, junk) == p
    decreases |addresses|
  {
    if addresses != [] {
      assert forall j :: 0 <= j < |addresses[1..]| ==> addresses[1..][j] == addresses[j + 1];
      ReleaseIdle(p, d, addresses[1..], junk);
    }
  }

  lemma NotedPage(frame: nat)
    requires frame < FRAME_COUNT
    ensures PageOf(NotedAddress(frame)) == KERNEL_PAGE && PageOf(0) == 0
  {
  }

  /** The frame map that loop leaves. */
  function AfterRelease(taken: seq<bool>, m: map<Slot, nat>, d: nat, c: nat): seq<bool>
    requires 0 < |taken| && (c == 0 ==> Slot(d, 0) in m && m[Slot(d, 0)] < |taken|)
  {
    if c == 0 then taken[0 := false][m[Slot(d, 0)] := false] else taken[0 := false]
  }

  /** The release loop over the addresses creation noted: it gives back the kernel's frame 0, the code
      frame only of a process loaded at page 0, and never the stack frame. */
  lemma ReleaseEffect(k: Kernel, m: map<Slot, nat>, i: nat, c: nat, junk: Flag)
    requires Isolated(k, m) && i < 16 && k.used[i] && Owns(k, m, i, c)
    ensures ReleaseAll(k.pages, k.procs[i].context.directory, k.procs[i].addresses, junk).taken ==
            AfterRelease(k.pages.taken, m, k.procs[i].context.directory, c)
  {
    hide Consistent, NotedAddress, PageOf;
    var p, d, a := k.pages, k.procs[i].context.directory, k.procs[i].addresses;
    var code, stack := m[Slot(d, c)], m[Slot(d, STACK_PAGE)];
    OwnedFrames(k, m, i, c);
    NotedPage(code);
    NotedPage(stack);
    var p1 := Release(p, d, a[0], junk);
    ReleaseInRange(p, d, a[0], junk);
    assert p1.taken == p.taken[0 := false] && p1.dirs[d][KERNEL_PAGE].frame == 0;
    assert Release(p1, d, a[1], junk) == p1;
    var p2 := Release(p1, d, a[2], junk);
    ReleaseInRange(p1, d, a[2], junk);
    assert a == [a[0], a[1], a[2]] + a[3..];
    assert a[1..][1..][1..] == a[3..] && a[1..][0] == a[1] && a[1..][1..][0] == a[2];
    assert ReleaseAll(p, d, a, junk) == ReleaseAll(p1, d, a[1..], junk);
    assert ReleaseAll(p1, d, a[1..], junk) == ReleaseAll(p1, d, a[1..][1..], junk);
    assert ReleaseAll(p1, d, a[1..][1..], junk) == ReleaseAll(p2, d, a[3..], junk);
    assert p2.dirs[d][0].frame == 0;
    ReleaseIdle(p2, d, a[3..], junk);
  }

  lemma OwnedFrames(k: Kernel, m: map<Slot, nat>, i: nat, c: nat)
    requires Isolated(k, m) && i < 16 && k.used[i] && Owns(k, m, i, c)
    ensures var d := k.procs[i].context.directory; var code, stack := m[Slot(d, c)], m[Slot(d, STACK_PAGE)];
            && 0 < code < FRAME_COUNT && 0 < stack < FRAME_COUNT && code != stack
            && k.pages.taken[0] && k.pages.taken[code] && k.pages.taken[stack]
            && k.pages.dirs[d][c] == Pde(USER_FLAG, code)
  {
    var d := k.procs[i].context.directory;
    assert Mapped(k.pages, m, Slot(d, c)) && Mapped(k.pages, m, Slot(d, STACK_PAGE));
    assert Mapped(k.pages, m, Slot(KERNEL_DIRECTORY, 0));
  }

  /** Destroying an isolated process breaks isolation: its stack frame stays taken although no page
      shows it, and the kernel's frame becomes the next one handed out. */
  lemma DestroyLeaks(k: Kernel, m: map<Slot, nat>, i: nat, c: nat, junk: Flag, stray: Pages)
    requires Scheduled(k) && Isolated(k, m) && i < 16 && k.used[i] && Owns(k, m, i, c)
    ensures var d := k.procs[i].context.directory; var p' := Destroy(k, i, junk, stray).pages;
            var stack := m[Slot(d, STACK_PAGE)];
            && NextFrame(p') == 0
            && stack < FRAME_COUNT && p'.taken[stack]
            && (forall s :: Visible(p', s) ==> p'.dirs[s.dir][s.page].frame != stack)
            && (forall m' :: !Isolated(Destroy(k, i, junk, stray), m'))
            && p'.free == k.pages.free + if c == 0 then 2 else 1
  {
    hide Consistent, FramesInRange, ReleaseAll, Unset, NotedAddress, PageOf;
    var d, a := k.procs[i].context.directory, k.procs[i].addresses;
    PidIsSlot(k, i);
    OwnedFrames(k, m, i, c);
    ReleaseEffect(k, m, i, c, junk);
    ReleaseAllCounts(k.pages, d, a, junk);
    ReleaseElsewhere(k.pages, d, a, junk);
    var code := m[Slot(d, c)];
    UnsetChange(k.pages.taken, 0, false, 0);
    if c == 0 { UnsetChange(k.pages.taken[0 := false], code, false, 0); }
    var p' := Destroy(k, i, junk, stray).pages;
    forall s | Visible(p', s) ensures p'.dirs[s.dir][s.page].frame != m[Slot(d, STACK_PAGE)] {
      assert s.dir != d;
      assert Visible(k.pages, s);
      SameFrameSameSlot(k, m, s, Slot(d, STACK_PAGE));
    }
    LostFrame(Destroy(k, i, junk, stray), m[Slot(d, STACK_PAGE)]);
  }

  /** A frame that is taken and shown by no page makes isolation impossible. */
  lemma LostFrame(k: Kernel, f: nat)
    requires f < FRAME_COUNT && k.pages.taken[f]
    requires forall s :: Visible(k.pages, s) ==> k.pages.dirs[s.dir][s.page].frame != f
    ensures forall m :: !Isolated(k, m)
  {
    hide Isolated;
    forall m ensures !Isolated(k, m) {
      if Isolated(k, m) { TakenShown(k, m, f); }
    }
  }

  lemma TakenShown(k: Kernel, m: map<Slot, nat>, f: nat)
    requires Isolated(k, m) && f < FRAME_COUNT && k.pages.taken[f]
    ensures exists s :: Visible(k.pages, s) && k.pages.dirs[s.dir][s.page].frame == f
  {
    hide FramesInRange, Unset, Owns;
    var s :| s in m && m[s] == f;
    assert Mapped(k.pages, m, s);
    assert Visible(k.pages, s) && k.pages.dirs[s.dir][s.page].frame == f;
  }

  lemma SameFrameSameSlot(k: Kernel, m: map<Slot, nat>, s: Slot, s': Slot)
    requires Isolated(k, m) && Visible(k.pages, s) && s' in m && s != s'
    ensures k.pages.dirs[s.dir][s.page].frame != m[s']
  {
    assert Mapped(k.pages, m, s) && Mapped(k.pages, m, s');
  }

  lemma {:induction false} ReleaseElsewhere(p: Pages, d: nat, addresses: seq<nat>, junk: Flag)
    requires FramesInRange(p) && d <= KERNEL_DIRECTORY
    ensures forall e :: 0 <= e <= KERNEL_DIRECTORY && e != d ==> ReleaseAll(p, d, addresses, junk).dirs[e] == p.dirs[e]
    decreases |addresses|
  {
    if addresses != [] {
      ReleaseInRange(p, d, addresses[0], junk);
      ReleaseElsewhere(Release(p, d, addresses[0], junk), d, addresses[1..], junk);
    }
  }
}
