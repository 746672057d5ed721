/** Runs of the kernel: who runs when, with which context, on which page directory. */
module Scheduling {
  import opened Paging
  import opened Processes

  function CountUsed(used: Used, i: nat): nat
    requires i <= 16
    decreases 16 - i
  {
    if i == 16 then 0 else (if used[i] then 1 else 0) + CountUsed(used, i + 1)
  }

  /** A slot in use holds a live process with its own page directory, running if it is the current one
      and ready otherwise; a free slot is blank. */
  predicate SlotOk(k: Kernel, i: nat)
    requires i < 16
  {
    if k.used[i] then
      && k.procs[i].pid == i && k.procs[i].status == (if i == k.cur then RUNNING else READY)
      && 0 <= k.procs[i].context.directory < DIRECTORY_COUNT && k.pages.used[k.procs[i].context.directory]
    else k.procs[i] == ZERO_PCB
  }

  predicate DirectoriesDistinct(k: Kernel) {
    forall i, j :: 0 <= i < j < 16 && k.used[i] && k.used[j] ==>
      k.procs[i].context.directory != k.procs[j].context.directory
  }

  /** The invariant of the running kernel. */
  ghost predicate Scheduled(k: Kernel) {
    && k.cur < 15 && k.next < 15 && k.used[k.cur] && k.used[k.next] && !k.used[15]
    && (forall i :: 0 <= i < 16 ==> SlotOk(k, i))
    && DirectoriesDistinct(k)
    && k.cr3 == k.procs[k.cur].context.directory
    && k.active == CountUsed(k.used, 0) && Unset(k.pages.used, 0) == DIRECTORY_COUNT - k.active
    && FramesInRange(k.pages) && k.pages.free == Unset(k.pages.taken, 0)
  }

  // ----- the search -----

  /** The search stops at the first ready slot on its way round to `cur`. */
  lemma {:induction false} SearchFirst(procs: Procs, used: Used, cur: nat, i: nat, j: nat)
    requires cur < 16 && i < 16 && j < 16 && Ready(procs, used, j) && Distance(i, j) < Distance(i, cur)
    ensures Search(procs, used, cur, i) != cur
    ensures Distance(i, Search(procs, used, cur, i)) <= Distance(i, j)
    decreases Distance(i, cur)
  {
    if i != j && !Ready(procs, used, i) {
      SearchFirst(procs, used, cur, After(i), j);
    }
  }

  /** Seen from the current slot: the next process is the nearest ready one going upwards. */
  lemma NextIsNearest(procs: Procs, used: Used, cur: nat, j: nat)
    requires cur < 15 && j < 16 && j != cur && Ready(procs, used, j)
    ensures var r := Search(procs, used, cur, cur + 1);
            r != cur && Distance(cur, r) <= Distance(cur, j)
  {
    SearchFirst(procs, used, cur, cur + 1, j);
  }

  // ----- events and runs -----

  datatype Event =
    | TimerTick(f: Frame) | Creation(load: Load, loaded: int) | Destruction(pid: nat, junk: Flag, stray: Pages)

  /** Unless refused, creations find at most 14 live processes and their loads succeed; no destruction of
      the process that runs or is due next, nor of pid 0 while slot 0 is free. */
  predicate Allowed(k: Kernel, e: Event) {
    match e
    case TimerTick(_) => true
    case Creation(load, loaded) => Refusal(k, load) == 0 ==> k.active <= 14 && loaded == 0
    case Destruction(pid, _, _) => pid != k.cur && pid != k.next && (pid == 0 ==> k.used[0])
  }

  ghost predicate Runnable(k: Kernel, e: Event) {
    match e
    case TimerTick(_) => k.cur < 16 && k.next < 15 && FirstRunning(k.procs, k.used, 0) < 16
    case Creation(load, _) =>
      Refusal(k, load) == 0 ==> FirstFree(k.used, 0) < 16 && FirstUnset(k.pages.used, 0) < DIRECTORY_COUNT
    case Destruction(pid, _, _) => Destroyable(k, pid)
  }

  ghost function Step(k: Kernel, e: Event): Kernel
    requires Runnable(k, e)
  {
    match e
    case TimerTick(f) => Tick(k, f)
    case Creation(load, loaded) => Create(k, load, loaded)
    case Destruction(pid, junk, stray) => Destroy(k, pid, junk, stray)
  }

  // ----- ticks -----

  /** Exactly one live process runs: the current one, which is the one the kernel finds, and the active
      page directory is its own. */
  lemma OneRunning(k: Kernel)
    requires Scheduled(k)
    ensures FirstRunning(k.procs, k.used, 0) == k.cur && k.cr3 == k.procs[k.cur].context.directory
    ensures forall i :: 0 <= i < 16 ==> (k.used[i] && k.procs[i].status == RUNNING <==> i == k.cur)
  {
    forall i | 0 <= i < 16 ensures k.used[i] && k.procs[i].status == RUNNING <==> i == k.cur {
      assert SlotOk(k, i);
    }
  }

  /** What a tick does, slot by slot. */
  lemma TickEffect(k: Kernel, f: Frame)
    requires Scheduled(k)
    ensures Runnable(k, TimerTick(f))
    ensures var k' := Tick(k, f);
            && k'.cur == k.next && k'.used == k.used && k'.active == k.active && k'.pages == k.pages
            && k'.cr3 == k'.procs[k'.cur].context.directory
            && (forall i :: 0 <= i < 16 && i != k.cur && i != k.next ==> k'.procs[i] == k.procs[i])
            && (k.cur != k.next ==>
                  k'.procs[k.cur] == k.procs[k.cur].(status := READY, context := SavedContext(f, k.cr3)))
            && k'.procs[k.next] == (if k.cur == k.next then k.procs[k.cur].(context := SavedContext(f, k.cr3))
                                    else k.procs[k.next]).(status := RUNNING)
  {
    hide FramesInRange, Unset, CountUsed, Search, DirectoriesDistinct, SavedContext;
    OneRunning(k);
  }

  lemma TickNext(k: Kernel, f: Frame)
    requires Scheduled(k) && Runnable(k, TimerTick(f))
    ensures var k' := Tick(k, f);
            && k'.next < 15 && k.used[k'.next]
            && forall q :: 0 <= q < 16 && k.used[q] && q != k.next ==>
                 k'.next != k.next && Distance(k.next, k'.next) <= Distance(k.next, q)
  {
    hide FramesInRange, Unset, CountUsed, Search, DirectoriesDistinct, SavedContext, Distance;
    OneRunning(k);
    var saved := k.procs[k.cur := k.procs[k.cur].(context := SavedContext(f, k.cr3))];
    var procs := SetStatus(saved, k.cur, READY);
    forall q | 0 <= q < 16 && k.used[q] && q != k.next
      ensures Tick(k, f).next != k.next && Distance(k.next, Tick(k, f).next) <= Distance(k.next, q)
    {
      assert SlotOk(k, q);
      assert Ready(procs, k.used, q);
      NextIsNearest(procs, k.used, k.next, q);
    }
    assert SlotOk(k, k.next);
  }

  lemma TickKeeps(k: Kernel, f: Frame)
    requires Scheduled(k)
    ensures Runnable(k, TimerTick(f)) && Scheduled(Tick(k, f))
  {
    hide FramesInRange, Unset, CountUsed, Search, Tick, Distance;
    TickEffect(k, f);
    TickNext(k, f);
    var k' := Tick(k, f);
    forall i | 0 <= i < 16
      ensures SlotOk(k', i) && (k.used[i] ==> k'.procs[i].context.directory == k.procs[i].context.directory)
    {
      assert SlotOk(k, i);
    }
  }

  // ----- counting -----

  lemma {:induction false} CountChange(used: Used, s: nat, b: bool, i: nat)
    requires s < 16 && i <= 16 && used[s] != b
    ensures CountUsed(used[s := b], i) == CountUsed(used, i) + if i <= s then (if b then 1 else -1) else 0
    decreases 16 - i
  {
    if i < 16 { CountChange(used, s, b, i + 1); }
  }

  lemma {:induction false} CountBound(used: Used, s: nat, i: nat)
    requires i <= s <= 16 && forall k :: i <= k < s ==> used[k]
    ensures s - i <= CountUsed(used, i) <= 16 - i
    decreases 16 - i
  {
    if i < 16 { CountBound(used, if i < s then s else i + 1, i + 1); }
  }

  /** With slot 15 free, a process can be created below it exactly when fewer than 15 are live. */
  lemma RoomBelow(used: Used)
    requires !used[15]
    ensures FirstFree(used, 0) < 15 <==> CountUsed(used, 0) <= 14
  {
    var s := FirstFree(used, 0);
    if s < 15 {
      CountChange(used, s, true, 0);
      CountChange(used[s := true], 15, true, 0);
      CountBound(used[s := true][15 := true], 0, 0);
    } else {
      CountBound(used, 15, 0);
    }
  }

  // ----- creation -----

  /** The pages after a process is placed, as far as scheduling cares. */
  lemma PlacedPages(p: Pages, entry: nat)
    requires FirstUnset(p.used, 0) < DIRECTORY_COUNT && FramesInRange(p) && p.free == Unset(p.taken, 0)
    ensures var p' := Placed(p, entry);
            && p'.used == p.used[FirstUnset(p.used, 0) := true] && FramesInRange(p') && p'.free == Unset(p'.taken, 0)
  {
    var d := FirstUnset(p.used, 0);
    var taken := TakeDirectory(p);
    AllocateCounts(taken, d, entry);
    AllocateCounts(Allocate(taken, d, entry), d, STACK_ADDRESS);
  }

  lemma AllocateCounts(p: Pages, d: nat, vaddr: nat)
    requires d <= KERNEL_DIRECTORY && FramesInRange(p) && p.free == Unset(p.taken, 0)
    ensures var p' := Allocate(p, d, vaddr);
            p'.used == p.used && FramesInRange(p') && p'.free == Unset(p'.taken, 0)
  {
    hide Unset;
    var f := FirstUnset(p.taken, 0);
    if f < FRAME_COUNT { UnsetChange(p.taken, f, true, 0); }
  }

  /** An accepted creation keeps the schedule intact exactly when the load succeeds and fewer than 15
      processes are live. */
  lemma CreateKeepsExactly(k: Kernel, load: Load, loaded: int)
    requires Scheduled(k) && Refusal(k, load) == 0
    ensures Runnable(k, Creation(load, loaded))
    ensures Scheduled(Create(k, load, loaded)) <==> loaded == 0 && k.active <= 14
  {
    hide Unset, CountUsed, Scheduled, Create;
    CreationRunnable(k, load, loaded);
    if loaded == 0 && k.active <= 14 { CreateKeeps(k, load); } else { CreateBreaks(k, load, loaded); }
  }

  lemma CreationRunnable(k: Kernel, load: Load, loaded: int)
    requires Scheduled(k) && Refusal(k, load) == 0
    ensures Runnable(k, Creation(load, loaded)) && FirstFree(k.used, 0) < 16
    ensures FirstUnset(k.pages.used, 0) < DIRECTORY_COUNT
    ensures k.active <= 14 ==> FirstFree(k.used, 0) < 15
    ensures k.active > 14 ==> FirstFree(k.used, 0) == 15
  {
    hide Unset, CountUsed, FramesInRange;
    RoomBelow(k.used);
    CountBound(k.used, 0, 0);
    UnsetPositive(k.pages.used, 0);
  }

  lemma CreateKeeps(k: Kernel, load: Load)
    requires Scheduled(k) && Refusal(k, load) == 0 && k.active <= 14
    ensures Runnable(k, Creation(load, 0)) && Scheduled(Create(k, load, 0))
  {
    hide Unset, CountUsed, FramesInRange, Placed, CodeFrame, StackFrame;
    CreationRunnable(k, load, 0);
    var i, d := FirstFree(k.used, 0), FirstUnset(k.pages.used, 0);
    PlacedPages(k.pages, load.entry);
    UnsetChange(k.pages.used, d, true, 0);
    CountChange(k.used, i, true, 0);
    var k' := Create(k, load, 0);
    forall j | 0 <= j < 16 ensures SlotOk(k', j) && (k.used[j] ==> k.procs[j].context.directory != d) {
      assert SlotOk(k, j);
    }
  }

  lemma CreateBreaks(k: Kernel, load: Load, loaded: int)
    requires Scheduled(k) && Refusal(k, load) == 0 && !(loaded == 0 && k.active <= 14)
    ensures Runnable(k, Creation(load, loaded)) && !Scheduled(Create(k, load, loaded))
  {
    hide Unset, CountUsed, FramesInRange, Placed, CodeFrame, StackFrame;
    CreationRunnable(k, load, loaded);
    assert SlotOk(k, k.cur);
  }

  lemma RefusedKeeps(k: Kernel, load: Load, loaded: int)
    requires Refusal(k, load) != 0
    ensures Create(k, load, loaded) == k
  {
  }

  // ----- destruction -----

  lemma {:induction false} ReleaseAllCounts(p: Pages, d: nat, addresses: seq<nat>, junk: Flag)
    requires FramesInRange(p) && d <= KERNEL_DIRECTORY && p.free == Unset(p.taken, 0)
    ensures var p' := ReleaseAll(p, d, addresses, junk);
            p'.used == p.used && FramesInRange(p') && p'.free == Unset(p'.taken, 0)
    decreases |addresses|
  {
    hide Unset;
    if addresses != [] {
      ReleaseInRange(p, d, addresses[0], junk);
      var f := p.dirs[d][PageOf(addresses[0])].frame;
      if p.taken[f] { UnsetChange(p.taken, f, false, 0); }
      ReleaseAllCounts(Release(p, d, addresses[0], junk), d, addresses[1..], junk);
    }
  }

  /** The pid of a live process finds its own slot. */
  lemma PidIsSlot(k: Kernel, pid: nat)
    requires Scheduled(k) && pid < 16 && k.used[pid]
    ensures FirstPid(k.procs, pid, 0) == pid
  {
    var i := FirstPid(k.procs, pid, 0);
    assert SlotOk(k, pid);
    if i < pid { assert SlotOk(k, i); }
  }

  /** A pid finds its own slot when that is in use, slot 0 when it is 0, and otherwise nothing. */
  lemma PidFound(k: Kernel, pid: nat)
    requires Scheduled(k)
    ensures FirstPid(k.procs, pid, 0) == if pid < 16 && (k.used[pid] || pid == 0) then pid else 16
    ensures pid < 16 && !k.used[pid] ==> k.procs[pid] == ZERO_PCB
  {
    var i := FirstPid(k.procs, pid, 0);
    if i < 16 { assert SlotOk(k, i); }
    if pid < 16 { assert SlotOk(k, pid); }
    if pid < 16 && k.used[pid] { PidIsSlot(k, pid); }
  }

  /** Whatever pid is asked for, its destruction keeps the schedule intact exactly when it is neither the
      running process nor the one due next, nor pid 0 while slot 0 is free. */
  lemma DestroyKeepsExactly(k: Kernel, pid: nat, junk: Flag, stray: Pages)
    requires Scheduled(k)
    ensures Runnable(k, Destruction(pid, junk, stray))
    ensures Scheduled(Destroy(k, pid, junk, stray)) <==> pid != k.cur && pid != k.next && (pid == 0 ==> k.used[0])
  {
    hide Unset, CountUsed, FramesInRange, ReleaseAll, Search, DirectoriesDistinct, SlotOk;
    PidFound(k, pid);
    if pid < 16 && k.used[pid] {
      DestroyLive(k, pid, junk, stray);
    } else if pid == 0 {
      DestroyFree(k, junk, stray);
    }
  }

  /** While slot 0 is free, pid 0 finds it there: the process table stays as it is and one live process is
      no longer counted. */
  lemma DestroyFree(k: Kernel, junk: Flag, stray: Pages)
    requires Scheduled(k) && !k.used[0]
    ensures Runnable(k, Destruction(0, junk, stray))
    ensures var k' := Destroy(k, 0, junk, stray);
            k'.procs == k.procs && k'.used == k.used && k'.active == CountUsed(k'.used, 0) - 1 && k'.pages == stray
  {
    hide Unset, CountUsed, FramesInRange, ReleaseAll, Search, DirectoriesDistinct;
    PidFound(k, 0);
    assert k.used[0 := false] == k.used && k.procs[0 := ZERO_PCB] == k.procs;
  }

  lemma DestroyLive(k: Kernel, pid: nat, junk: Flag, stray: Pages)
    requires Scheduled(k) && pid < 16 && k.used[pid]
    ensures Runnable(k, Destruction(pid, junk, stray))
    ensures Scheduled(Destroy(k, pid, junk, stray)) <==> pid != k.cur && pid != k.next
  {
    hide Unset, CountUsed, FramesInRange, ReleaseAll, Search;
    PidIsSlot(k, pid);
    assert SlotOk(k, pid);
    var d, k' := k.procs[pid].context.directory, Destroy(k, pid, junk, stray);
    ReleaseAllCounts(k.pages, d, k.procs[pid].addresses, junk);
    UnsetChange(k.pages.used, d, false, 0);
    CountChange(k.used, pid, false, 0);
    DropInRange(ReleaseAll(k.pages, d, k.procs[pid].addresses, junk), d);
    forall j | 0 <= j < 16 ensures SlotOk(k', j) {
      assert SlotOk(k, j);
    }
  }

  lemma DropInRange(p: Pages, d: nat)
    requires FramesInRange(p)
    ensures FramesInRange(DropDirectory(p, d))
  {
  }

  // ----- every step, every run -----

  lemma StepKeeps(k: Kernel, e: Event)
    requires Scheduled(k) && Allowed(k, e)
    ensures Runnable(k, e) && Scheduled(Step(k, e))
  {
    hide Scheduled, Tick, Create, Destroy, Refusal;
    match e
    case TimerTick(f) => TickKeeps(k, f);
    case Creation(load, loaded) =>
      if Refusal(k, load) == 0 { CreateKeepsExactly(k, load, loaded); } else { RefusedKeeps(k, load, loaded); }
    case Destruction(pid, junk, stray) => DestroyKeepsExactly(k, pid, junk, stray);
  }

  ghost predicate RunAllowed(k: Kernel, es: seq<Event>)
    requires Scheduled(k)
    decreases |es|
  {
    es == [] || (Allowed(k, es[0]) && (StepKeeps(k, es[0]); RunAllowed(Step(k, es[0]), es[1..])))
  }

  ghost function Run(k: Kernel, es: seq<Event>): Kernel
    requires Scheduled(k) && RunAllowed(k, es)
    decreases |es|
  {
    if es == [] then k else StepKeeps(k, es[0]); Run(Step(k, es[0]), es[1..])
  }

  lemma {:induction false} RunScheduled(k: Kernel, es: seq<Event>)
    requires Scheduled(k) && RunAllowed(k, es)
    ensures Scheduled(Run(k, es))
    decreases |es|
  {
    hide Scheduled, Step, Allowed;
    if es != [] {
      StepKeeps(k, es[0]);
      RunScheduled(Step(k, es[0]), es[1..]);
    }
  }

  // ----- fairness -----

  function Ticks(es: seq<Event>): nat
    decreases |es|
  {
    if es == [] then 0 else (if es[0].TimerTick? then 1 else 0) + Ticks(es[1..])
  }

  /** The process in slot `q` is not destroyed during the run. */
  predicate Survives(es: seq<Event>, q: nat) {
    forall i :: 0 <= i < |es| && es[i].Destruction? ==> es[i].pid != q
  }

  /** `q` becomes the running process at one of the first `n` ticks of the run. */
  ghost predicate RunsWithin(k: Kernel, es: seq<Event>, q: nat, n: nat)
    requires Scheduled(k) && RunAllowed(k, es)
    decreases |es|
  {
    es != [] &&
    (StepKeeps(k, es[0]);
     var k' := Step(k, es[0]);
     if es[0].TimerTick? then n > 0 && (k'.cur == q || RunsWithin(k', es[1..], q, n - 1))
     else RunsWithin(k', es[1..], q, n))
  }

  /** One event: a tick runs the process due next and brings every other one closer; nothing else
      changes who is due. */
  lemma StepAdvances(k: Kernel, e: Event, q: nat)
    requires Scheduled(k) && Allowed(k, e) && q < 15 && k.used[q] && (e.Destruction? ==> e.pid != q)
    ensures Runnable(k, e) && Step(k, e).used[q] && Step(k, e).next < 15
    ensures e.TimerTick? ==> Step(k, e).cur == k.next
    ensures e.TimerTick? && q != k.next ==> Distance(Step(k, e).next, q) < Distance(k.next, q)
    ensures !e.TimerTick? ==> Step(k, e).next == k.next && Step(k, e).cur == k.cur
  {
    hide FramesInRange, Unset, CountUsed, Search, SlotOk, ReleaseAll, Placed;
    StepKeeps(k, e);
    match e
    case TimerTick(f) =>
      TickEffect(k, f);
      TickNext(k, f);
    case Creation(load, loaded) =>
    case Destruction(pid, junk, stray) => PidFound(k, pid);
  }

  /** A surviving process runs after at most as many further ticks as it is slots away from the
      process due next. */
  lemma {:induction false} RunsInTurn(k: Kernel, es: seq<Event>, q: nat)
    requires Scheduled(k) && RunAllowed(k, es) && q < 15 && k.used[q] && Survives(es, q)
    requires Ticks(es) > Distance(k.next, q)
    ensures RunsWithin(k, es, q, Distance(k.next, q) + 1)
    decreases |es|
  {
    hide Scheduled, Step, Allowed;
    var e, rest := es[0], es[1..];
    StepKeeps(k, e);
    NextBelow(k);
    StepAdvances(k, e, q);
    var k' := Step(k, e);
    assert forall i :: 0 <= i < |rest| ==> rest[i] == es[i + 1];
    if !(e.TimerTick? && k'.cur == q) {
      RunsInTurn(k', rest, q);
      if e.TimerTick? { MoreTicks(k', rest, q, Distance(k'.next, q) + 1, Distance(k.next, q)); }
    }
  }

  lemma NextBelow(k: Kernel)
    requires Scheduled(k)
    ensures k.next < 15
  {
  }

  lemma {:induction false} MoreTicks(k: Kernel, es: seq<Event>, q: nat, n: nat, n': nat)
    requires Scheduled(k) && RunAllowed(k, es) && n <= n' && RunsWithin(k, es, q, n)
    ensures RunsWithin(k, es, q, n')
    decreases |es|
  {
    hide Scheduled, Step, Allowed;
    StepKeeps(k, es[0]);
    var k' := Step(k, es[0]);
    if es[0].TimerTick? {
      if k'.cur != q { MoreTicks(k', es[1..], q, n - 1, n' - 1); }
    } else {
      MoreTicks(k', es[1..], q, n, n');
    }
  }

  /** Fairness: however creations and destructions interleave, a process that stays live runs within
      16 ticks. */
  lemma Fair(k: Kernel, es: seq<Event>, q: nat)
    requires Scheduled(k) && RunAllowed(k, es) && q < 16 && k.used[q] && Survives(es, q) && Ticks(es) >= 16
    ensures RunsWithin(k, es, q, 16)
  {
    hide RunAllowed, SlotOk, FramesInRange;
    RunsInTurn(k, es, q);
    MoreTicks(k, es, q, Distance(k.next, q) + 1, 16);
  }

  // ----- contexts -----

  /** The context a process should resume with after `e`: the one saved if it was interrupted, a fresh
      one if it was just created in this slot, and otherwise the one it had. */
  ghost function NextContext(k: Kernel, e: Event, q: nat, c: Context): Context {
    match e
    case TimerTick(f) => if q == k.cur then SavedContext(f, k.cr3) else c
    case Creation(load, loaded) =>
      if Refusal(k, load) == 0 && q == FirstFree(k.used, 0) then
        InitialContext(ZERO_CONTEXT, load.entry, FirstUnset(k.pages.used, 0))
      else c
    case Destruction(pid, _, _) => if q == pid then ZERO_CONTEXT else c
  }

  /** The context expected of slot `q` after a run, starting from `c`. */
  ghost function Expected(k: Kernel, es: seq<Event>, q: nat, c: Context): Context
    requires Scheduled(k) && RunAllowed(k, es)
    decreases |es|
  {
    if es == [] then c
    else StepKeeps(k, es[0]); Expected(Step(k, es[0]), es[1..], q, NextContext(k, es[0], q, c))
  }

  lemma StepContext(k: Kernel, e: Event, q: nat)
    requires Scheduled(k) && Allowed(k, e) && q < 16
    ensures Runnable(k, e) && Step(k, e).procs[q].context == NextContext(k, e, q, k.procs[q].context)
  {
    hide FramesInRange, Unset, CountUsed, Search, ReleaseAll, Placed, SavedContext, InitialContext, Tick;
    StepKeeps(k, e);
    match e
    case TimerTick(f) => TickEffect(k, f);
    case Creation(load, loaded) =>
      if Refusal(k, load) == 0 { assert SlotOk(k, FirstFree(k.used, 0)); }
    case Destruction(pid, junk, stray) => PidFound(k, pid);
  }

  /** Over any run, what a process resumes with is exactly what was saved when it was last interrupted,
      or its initial context. */
  lemma {:induction false} ContextKept(k: Kernel, es: seq<Event>, q: nat)
    requires Scheduled(k) && RunAllowed(k, es) && q < 16
    ensures Run(k, es).procs[q].context == Expected(k, es, q, k.procs[q].context)
    decreases |es|
  {
    hide Scheduled, Step, Allowed, NextContext;
    if es != [] {
      StepKeeps(k, es[0]);
      StepContext(k, es[0], q);
      ContextKept(Step(k, es[0]), es[1..], q);
    }
  }

  /** The saved context always carries the process's own page directory, so a live process keeps its
      directory from creation to destruction. */
  lemma {:induction false} DirectoryKept(k: Kernel, es: seq<Event>, q: nat)
    requires Scheduled(k) && RunAllowed(k, es) && q < 15 && k.used[q] && Survives(es, q)
    ensures Run(k, es).used[q] && Run(k, es).procs[q].context.directory == k.procs[q].context.directory
    decreases |es|
  {
    hide Scheduled, Step, Allowed;
    if es != [] {
      StepKeeps(k, es[0]);
      StepAdvances(k, es[0], q);
      StepDirectory(k, es[0], q);
      assert forall i :: 0 <= i < |es[1..]| ==> es[1..][i] == es[i + 1];
      DirectoryKept(Step(k, es[0]), es[1..], q);
    }
  }

  lemma StepDirectory(k: Kernel, e: Event, q: nat)
    requires Scheduled(k) && Allowed(k, e) && q < 15 && k.used[q] && (e.Destruction? ==> e.pid != q)
    ensures Runnable(k, e) && Step(k, e).procs[q].context.directory == k.procs[q].context.directory
  {
    hide FramesInRange, Unset, CountUsed, SlotOk, ReleaseAll, Placed;
    StepContext(k, e, q);
  }
}
