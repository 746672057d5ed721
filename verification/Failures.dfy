/** What goes wrong after the steps that break the schedule. */
module Failures {
  import opened Paging
  import opened Processes
  import opened Scheduling

  lemma TheRunning(procs: Procs, used: Used, c: nat)
    requires c < 16 && forall i :: 0 <= i < 16 ==> (used[i] && procs[i].status == RUNNING <==> i == c)
    ensures FirstRunning(procs, used, 0) == c
  {
    assert used[c] && procs[c].status == RUNNING;
  }

  /** After the running process is destroyed the kernel finds none running, so the next tick has nowhere to
      save the interrupted context. */
  lemma NoneRunning(k: Kernel, junk: Flag, stray: Pages)
    requires Scheduled(k)
    ensures Runnable(k, Destruction(k.cur, junk, stray))
    ensures var k' := Destroy(k, k.cur, junk, stray);
            FirstRunning(k'.procs, k'.used, 0) == 16 && forall f :: !Runnable(k', TimerTick(f))
  {
    hide Unset, CountUsed, FramesInRange, ReleaseAll, DirectoriesDistinct;
    PidFound(k, k.cur);
    OneRunning(k);
    assert SlotOk(k, k.cur);
  }

  /** After the process due next is destroyed the next tick switches to its free slot, with no page
      directory active. */
  lemma FreeSlotRuns(k: Kernel, junk: Flag, stray: Pages, f: Frame)
    requires Scheduled(k) && k.next != k.cur
    ensures Runnable(k, Destruction(k.next, junk, stray))
    ensures var k' := Destroy(k, k.next, junk, stray);
            && Runnable(k', TimerTick(f))
            && Tick(k', f).cur == k.next && !Tick(k', f).used[k.next] && Tick(k', f).cr3 == NO_DIRECTORY
  {
    hide Unset, CountUsed, FramesInRange, ReleaseAll, DirectoriesDistinct, Search;
    PidFound(k, k.next);
    assert SlotOk(k, k.next) && SlotOk(k, k.cur);
    OneRunning(k);
    var k' := Destroy(k, k.next, junk, stray);
    TheRunning(k'.procs, k'.used, k.cur);
  }

  /** After a failed load the new directory is active while the old process runs, and its next tick saves
      that directory as its own. */
  lemma WrongDirectory(k: Kernel, load: Load, loaded: int, f: Frame)
    requires Scheduled(k) && Refusal(k, load) == 0 && loaded != 0
    ensures Runnable(k, Creation(load, loaded))
    ensures var k' := Create(k, load, loaded);
            && k'.cur == k.cur && k'.cr3 == FirstUnset(k.pages.used, 0) != k.procs[k.cur].context.directory
            && Runnable(k', TimerTick(f)) && Tick(k', f).procs[k.cur].context.directory == k'.cr3
  {
    hide Unset, CountUsed, FramesInRange, Placed, CodeFrame, StackFrame, DirectoriesDistinct, Search, InitialContext;
    CreationRunnable(k, load, loaded);
    assert SlotOk(k, k.cur);
    OneRunning(k);
    var k' := Create(k, load, loaded);
    TheRunning(k'.procs, k'.used, k.cur);
  }

  // ----- sixteen processes -----

  /** All slots are taken, the last one included. */
  predicate Full(k: Kernel) {
    && k.cur < 16 && k.next < 16
    && forall i :: 0 <= i < 16 ==> k.used[i] && k.procs[i].status == (if i == k.cur then RUNNING else READY)
  }

  /** A creation accepted with 15 live processes takes slot 15. */
  lemma LastSlotTaken(k: Kernel, load: Load)
    requires Scheduled(k) && Refusal(k, load) == 0 && k.active == 15
    ensures Runnable(k, Creation(load, 0)) && Full(Create(k, load, 0)) && Create(k, load, 0).next == k.next
  {
    hide Unset, CountUsed, FramesInRange, Placed, CodeFrame, StackFrame, DirectoriesDistinct, InitialContext;
    CreationRunnable(k, load, 0);
    var k' := Create(k, load, 0);
    forall i | 0 <= i < 16 ensures k'.used[i] && k'.procs[i].status == (if i == k'.cur then RUNNING else READY) {
      assert SlotOk(k, i);
    }
  }

  /** With all slots taken every tick moves the process due next up by one. */
  lemma FullTick(k: Kernel, f: Frame)
    requires Full(k) && k.next < 15
    ensures Runnable(k, TimerTick(f)) && Full(Tick(k, f)) && Tick(k, f).next == k.next + 1
  {
    hide SavedContext, FirstRunning;
    TheRunning(k.procs, k.used, k.cur);
    var saved := k.procs[k.cur := k.procs[k.cur].(context := SavedContext(f, k.cr3))];
    var procs := SetStatus(saved, k.cur, READY);
    assert Ready(procs, k.used, k.next + 1);
  }

  /** The kernel after a series of ticks. */
  ghost function Ticked(k: Kernel, fs: seq<Frame>): Kernel
    requires Full(k) && k.next + |fs| <= 15
    decreases |fs|
  {
    if fs == [] then k else FullTick(k, fs[0]); Ticked(Tick(k, fs[0]), fs[1..])
  }

  /** Then slot 15 comes to be due next, and the search after the following tick would start at slot 16,
      past the process table. */
  lemma {:induction false} SearchLeavesTable(k: Kernel, fs: seq<Frame>)
    requires Full(k) && k.next + |fs| == 15
    ensures Full(Ticked(k, fs)) && Ticked(k, fs).next + 1 == PROCESS_COUNT
    decreases |fs|
  {
    hide Tick, Full;
    if fs != [] {
      FullTick(k, fs[0]);
      SearchLeavesTable(Tick(k, fs[0]), fs[1..]);
    }
  }
}
