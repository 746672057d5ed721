/** Processes and the scheduler: the process table, process creation and destruction, and the timer
    tick that saves the running context and switches to the process chosen one tick earlier. */
module Processes {
  import opened Types
  import opened Paging

  const PROCESS_COUNT := 16
  const FRAME_LIMIT := 8
  const KERNEL_BASE := 0xC000_0000
  const STACK_ADDRESS := 0xBFFF_FFFC
  const CODE_SEGMENT := 0x1B
  const DATA_SEGMENT := 0x23
  const NO_DIRECTORY := -1

  /** The registers the kernel touches by name, and all the others together. */
  datatype Cpu = Cpu(ds: nat, es: nat, fs: nat, gs: nat, ebp: nat, esp: nat, others: int)

  datatype Context = Context(cpu: Cpu, eip: nat, cs: nat, eflags: bv32, esp: nat, ss: nat, directory: int)

  /** What the processor pushed when the timer fired. */
  datatype Frame = Frame(cpu: Cpu, eip: nat, cs: nat, eflags: bv32)

  datatype Status = READY | RUNNING | TERMINATED

  datatype Pcb = Pcb(pid: nat, status: Status, name: Name, context: Context, addresses: Addresses, frames: nat)
  type Addresses = a: seq<nat> | |a| == 8 witness seq(8, i => 0)

  const ZERO_CONTEXT := Context(Cpu(0, 0, 0, 0, 0, 0, 0), 0, 0, 0, 0, 0, NO_DIRECTORY)

  function NoAddresses(): Addresses { seq(8, i => 0) }

  const ZERO_PCB: Pcb := Pcb(0, READY, NO_NAME, ZERO_CONTEXT, NoAddresses(), 0)

  type Procs = s: seq<Pcb> | |s| == 16 witness seq(16, i => ZERO_PCB)
  type Used = s: seq<bool> | |s| == 16 witness seq(16, i => false)

  /** The executable to load: name, load address and size, all of 32 bits. */
  datatype Load = Load(name: Name, entry: nat, size: nat)

  /** The kernel's state. `cr3` is the active page directory. */
  datatype Kernel = Kernel(procs: Procs, used: Used, active: int, cur: nat, next: nat, cr3: int, pages: Pages)

  // ----- searches -----

  function FirstFree(used: Used, i: nat): (s: nat)
    requires i <= 16
    ensures i <= s <= 16
    ensures forall k :: i <= k < s ==> used[k]
    ensures s < 16 ==> !used[s]
    decreases 16 - i
  {
    if i == 16 || !used[i] then i else FirstFree(used, i + 1)
  }

  /** The first slot in use that is running, or 16. */
  function FirstRunning(procs: Procs, used: Used, i: nat): (s: nat)
    requires i <= 16
    ensures i <= s <= 16
    ensures forall k :: i <= k < s ==> !(used[k] && procs[k].status == RUNNING)
    ensures s < 16 ==> used[s] && procs[s].status == RUNNING
    decreases 16 - i
  {
    if i == 16 || (used[i] && procs[i].status == RUNNING) then i else FirstRunning(procs, used, i + 1)
  }

  function FirstPid(procs: Procs, pid: nat, i: nat): (s: nat)
    requires i <= 16
    ensures i <= s <= 16
    ensures forall k :: i <= k < s ==> procs[k].pid != pid
    ensures s < 16 ==> procs[s].pid == pid
    decreases 16 - i
  {
    if i == 16 || procs[i].pid == pid then i else FirstPid(procs, pid, i + 1)
  }

  predicate Ready(procs: Procs, used: Used, i: nat)
    requires i < 16
  {
    used[i] && procs[i].status == READY
  }

  function After(i: nat): nat { if i + 1 >= PROCESS_COUNT then 0 else i + 1 }

  /** Steps from `a` to `b` going upwards and wrapping after slot 15. */
  function Distance(a: nat, b: nat): nat
    requires a < 16 && b < 16
  {
    if a <= b then b - a else b + 16 - a
  }

  /** The first ready slot met from `i` upwards before coming back to `cur`, or `cur`. */
  function Search(procs: Procs, used: Used, cur: nat, i: nat): (r: nat)
    requires cur < 16 && i < 16
    ensures r < 16 && (r != cur ==> Ready(procs, used, r))
    decreases Distance(i, cur)
  {
    if i == cur then cur
    else if Ready(procs, used, i) then i
    else Search(procs, used, cur, After(i))
  }

  // ----- scheduling -----

  function SetStatus(procs: Procs, i: nat, status: Status): Procs
    requires i < 16
  {
    procs[i := procs[i].(status := status)]
  }

  /** The switch: the precomputed process becomes current, and the next one is precomputed. */
  function Switch(k: Kernel): Kernel
    requires k.cur < 16 && k.next < 15
  {
    var procs := SetStatus(k.procs, k.cur, READY);
    var next := Search(procs, k.used, k.next, k.next + 1);
    var procs' := SetStatus(procs, k.next, RUNNING);
    k.(procs := procs', cur := k.next, next := next, cr3 := procs'[k.next].context.directory)
  }

  function SavedContext(f: Frame, cr3: int): Context {
    Context(f.cpu, f.eip, f.cs, f.eflags, f.cpu.esp, DATA_SEGMENT, cr3)
  }

  /** The timer tick: save the running context, then switch. */
  function Tick(k: Kernel, f: Frame): Kernel
    requires k.cur < 16 && k.next < 15 && FirstRunning(k.procs, k.used, 0) < 16
  {
    var r := FirstRunning(k.procs, k.used, 0);
    Switch(k.(procs := k.procs[r := k.procs[r].(context := SavedContext(f, k.cr3))]))
  }

  // ----- creation -----

  function CeilDiv(a: nat, b: nat): nat
    requires b > 0
  {
    a / b + if a % b != 0 then 1 else 0
  }

  /** The frames creation asks for: the executable and the stack, in 32-bit arithmetic. */
  function FramesNeeded(size: nat): nat { CeilDiv((size + FRAME_SIZE) % WORD, FRAME_SIZE) }

  function InitialContext(c: Context, entry: nat, d: int): Context {
    Context(c.cpu.(ds := DATA_SEGMENT, es := DATA_SEGMENT, fs := DATA_SEGMENT, gs := DATA_SEGMENT,
                   ebp := STACK_ADDRESS, esp := STACK_ADDRESS),
            entry, CODE_SEGMENT, c.eflags | 0x202, STACK_ADDRESS, DATA_SEGMENT, d)
  }

  /** The code of a request that is turned down, or 0. */
  function Refusal(k: Kernel, load: Load): int {
    if k.active >= PROCESS_COUNT then 1
    else if load.entry >= KERNEL_BASE then 2
    else if FramesNeeded(load.size) > k.pages.free || FramesNeeded(load.size) > FRAME_LIMIT then 3
    else 0
  }

  /** The page manager after a new directory and the two frames of a process. */
  function Placed(p: Pages, entry: nat): Pages
    requires FirstUnset(p.used, 0) < DIRECTORY_COUNT
  {
    var d := FirstUnset(p.used, 0);
    Allocate(Allocate(TakeDirectory(p), d, entry), d, STACK_ADDRESS)
  }

  function CodeFrame(p: Pages): int { NextFrame(TakeDirectory(p)) }

  function StackFrame(p: Pages, entry: nat): int
    requires FirstUnset(p.used, 0) < DIRECTORY_COUNT
  {
    NextFrame(Allocate(TakeDirectory(p), FirstUnset(p.used, 0), entry))
  }

  /** The address creation notes for a frame: its index above the kernel base. */
  function NotedAddress(frame: int): nat { (frame + KERNEL_BASE) % WORD }

  /** Creation of a process whose executable loads with code `loaded`; a failed load leaves the slot
      taken and the new directory active. */
  function Create(k: Kernel, load: Load, loaded: int): Kernel
    requires Refusal(k, load) == 0 ==> FirstFree(k.used, 0) < 16 && FirstUnset(k.pages.used, 0) < DIRECTORY_COUNT
  {
    if Refusal(k, load) != 0 then k
    else
      var i, d := FirstFree(k.used, 0), FirstUnset(k.pages.used, 0);
      var previous := k.procs[i];
      var code, stack := NotedAddress(CodeFrame(k.pages)), NotedAddress(StackFrame(k.pages, load.entry));
      var addresses := previous.addresses[0 := code][1 := stack];
      var context := if loaded != 0 then previous.context else InitialContext(previous.context, load.entry, d);
      k.(procs := k.procs[i := Pcb(i, READY, load.name, context, addresses, 2)],
         used := k.used[i := true], active := k.active + 1,
         cr3 := if loaded != 0 then d else k.cr3, pages := Placed(k.pages, load.entry))
  }

  function CreateCode(k: Kernel, load: Load, loaded: int): int {
    if Refusal(k, load) != 0 then Refusal(k, load) else if loaded != 0 then 4 else 0
  }

  // ----- destruction -----

  /** All frame numbers in the directories index the frame map. */
  predicate FramesInRange(p: Pages) {
    forall d, page :: 0 <= d <= KERNEL_DIRECTORY && 0 <= page < PDE_COUNT ==> p.dirs[d][page].frame < FRAME_COUNT
  }

  lemma ReleaseInRange(p: Pages, d: nat, vaddr: nat, junk: Flag)
    requires FramesInRange(p) && d <= KERNEL_DIRECTORY
    ensures FramesInRange(Release(p, d, vaddr, junk))
  {
  }

  /** The release loop over the noted addresses, with the junk each call leaves in its flags. */
  function ReleaseAll(p: Pages, d: nat, addresses: seq<nat>, junk: Flag): Pages
    requires FramesInRange(p) && d <= KERNEL_DIRECTORY
    decreases |addresses|
  {
    if addresses == [] then p
    else
      ReleaseInRange(p, d, addresses[0], junk);
      ReleaseAll(Release(p, d, addresses[0], junk), d, addresses[1..], junk)
  }

  /** What destroying a pid needs: nothing when no entry has it; otherwise that it is a slot number, and
      page directories, or the null directory of a free slot. */
  predicate Destroyable(k: Kernel, pid: nat) {
    FirstPid(k.procs, pid, 0) < 16 ==>
      pid < 16 && FramesInRange(k.pages) && NO_DIRECTORY <= k.procs[pid].context.directory <= KERNEL_DIRECTORY
  }

  /** Destruction of the first process table entry with this pid. Where its directory is null, the
      releases read and write through address 0, and `stray` is what they leave of the page manager. */
  function Destroy(k: Kernel, pid: nat, junk: Flag, stray: Pages): Kernel
    requires Destroyable(k, pid)
  {
    var i := FirstPid(k.procs, pid, 0);
    if i == 16 then k
    else
      var pcb := k.procs[pid];
      var d := pcb.context.directory;
      k.(procs := k.procs[i := ZERO_PCB], used := k.used[i := false], active := k.active - 1,
         pages := if d == NO_DIRECTORY then stray else DropDirectory(ReleaseAll(k.pages, d, pcb.addresses, junk), d))
  }

  // ----- the kernel object -----

  class Machine {
    const processList: array<Pcb>
    const processUsed: array<bool>
    var activeCount: int
    var currentIndex: nat
    var nextIndex: nat
    var cr3: int
    const paging: PageManager

    ghost predicate Valid() {
      && processList.Length == PROCESS_COUNT && processUsed.Length == PROCESS_COUNT && paging.Valid()
      && processUsed != paging.frameMap && processUsed != paging.directoryUsed
      && (processList as object) != paging.tables
    }

    ghost function State(): Kernel
      reads this, processList, processUsed, paging, paging.frameMap, paging.tables, paging.directoryUsed
      requires Valid()
    {
      Kernel(processList[..], processUsed[..], activeCount, currentIndex, nextIndex, cr3, paging.State())
    }

    /** The machine at boot, running on the kernel's directory. */
    constructor ()
      ensures Valid() && fresh(processList) && fresh(processUsed) && fresh(paging)
      ensures fresh(paging.frameMap) && fresh(paging.tables) && fresh(paging.directoryUsed)
      ensures State() == BootKernel()
    {
      processList := new Pcb[PROCESS_COUNT](i => ZERO_PCB);
      processUsed := new bool[PROCESS_COUNT](i => false);
      activeCount, currentIndex, nextIndex, cr3 := 0, 0, 0, KERNEL_DIRECTORY;
      paging := new PageManager();
    }

    /** The slot of the running process; -1 stands for the null pointer. */
    method RunningSlot() returns (slot: int)
      requires Valid()
      ensures slot == var r := FirstRunning(processList[..], processUsed[..], 0); if r == PROCESS_COUNT then -1 else r
    {
      var i := 0;
      while i < PROCESS_COUNT
        invariant 0 <= i <= PROCESS_COUNT
        invariant FirstRunning(processList[..], processUsed[..], 0) == FirstRunning(processList[..], processUsed[..], i)
      {
        if processUsed[i] && processList[i].status == RUNNING { return i; }
        i := i + 1;
      }
      return -1;
    }

    method InactiveIndex() returns (slot: int)
      requires Valid()
      ensures slot == var s := FirstFree(processUsed[..], 0); if s == PROCESS_COUNT then -1 else s
    {
      var i := 0;
      while i < PROCESS_COUNT
        invariant 0 <= i <= PROCESS_COUNT
        invariant FirstFree(processUsed[..], 0) == FirstFree(processUsed[..], i)
      {
        if !processUsed[i] { return i; }
        i := i + 1;
      }
      return -1;
    }

    method SaveContext(c: Context)
      requires Valid() && FirstRunning(processList[..], processUsed[..], 0) < PROCESS_COUNT
      modifies processList
      ensures var r := FirstRunning(old(processList[..]), processUsed[..], 0);
              processList[..] == old(processList[..])[r := old(processList[..])[r].(context := c)]
    {
      var r := RunningSlot();
      processList[r] := processList[r].(context := c);
    }

    /** Returns the context control resumes with. The search would read slot 16 if the new current
        process were in slot 15. */
    method SwitchToNext() returns (resumed: Context)
      requires Valid() && currentIndex < PROCESS_COUNT && nextIndex < PROCESS_COUNT - 1
      modifies this`currentIndex, this`nextIndex, this`cr3, processList
      ensures State() == Switch(old(State()))
      ensures resumed == State().procs[State().cur].context
    {
      processList[currentIndex] := processList[currentIndex].(status := READY);
      ghost var procs := processList[..];
      assert procs == SetStatus(old(processList[..]), old(currentIndex), READY);
      currentIndex := nextIndex;
      var i: nat := currentIndex + 1;
      while i != currentIndex && !(processUsed[i] && processList[i].status == READY)
        invariant i < PROCESS_COUNT && processList[..] == procs
        invariant Search(procs, processUsed[..], currentIndex, currentIndex + 1) ==
                  Search(procs, processUsed[..], currentIndex, i)
        decreases Distance(i, currentIndex)
      {
        i := i + 1;
        if i >= PROCESS_COUNT { i := 0; }
      }
      nextIndex := i;
      processList[currentIndex] := processList[currentIndex].(status := RUNNING);
      cr3 := processList[currentIndex].context.directory;
      resumed := processList[currentIndex].context;
    }

    method TimerIsr(f: Frame) returns (resumed: Context)
      requires Valid() && currentIndex < PROCESS_COUNT && nextIndex < PROCESS_COUNT - 1
      requires FirstRunning(processList[..], processUsed[..], 0) < PROCESS_COUNT
      modifies this`currentIndex, this`nextIndex, this`cr3, processList
      ensures State() == Tick(old(State()), f)
      ensures resumed == State().procs[State().cur].context
    {
      SaveContext(Context(f.cpu, f.eip, f.cs, f.eflags, f.cpu.esp, DATA_SEGMENT, cr3));
      resumed := SwitchToNext();
    }

    /** `loaded` is the code with which reading the executable returns. */
    method CreateUserProcess(load: Load, loaded: int) returns (code: int)
      requires Valid()
      requires Refusal(State(), load) == 0 ==>
                 FirstFree(processUsed[..], 0) < PROCESS_COUNT
                 && FirstUnset(paging.directoryUsed[..], 0) < DIRECTORY_COUNT
      modifies this`activeCount, this`cr3, processList, processUsed
      modifies paging`freeCount, paging.frameMap, paging.tables, paging.directoryUsed
      ensures State() == Create(old(State()), load, loaded) && code == CreateCode(old(State()), load, loaded)
    {
      hide Placed, CodeFrame, StackFrame, InitialContext, NotedAddress;
      if activeCount >= PROCESS_COUNT { return 1; }
      if load.entry >= KERNEL_BASE { return 2; }
      var needed := CeilDiv((load.size + FRAME_SIZE) % WORD, FRAME_SIZE);
      var enough := paging.AllocateCheck(needed);
      if !enough || needed > FRAME_LIMIT { return 3; }
      var index := InactiveIndex();
      var pid := InactiveIndex();
      var pcb := processList[index].(name := load.name, pid := pid, status := READY);
      var current := cr3;
      var d, code0, stack := PlaceProcess(load.entry);
      pcb := pcb.(addresses := pcb.addresses[0 := NotedAddress(code0)][1 := NotedAddress(stack)], frames := 2);
      processUsed[index] := true;
      activeCount := activeCount + 1;
      cr3 := d;
      if loaded != 0 {
        processList[index] := pcb;
        return 4;
      }
      cr3 := current;
      processList[index] := pcb.(context := InitialContext(pcb.context, load.entry, d), status := READY);
      code := 0;
    }

    /** A new directory with the frames of the executable and of the stack. */
    method PlaceProcess(entry: nat) returns (d: nat, code0: int, stack: int)
      requires Valid() && FirstUnset(paging.directoryUsed[..], 0) < DIRECTORY_COUNT
      modifies paging`freeCount, paging.frameMap, paging.tables, paging.directoryUsed
      ensures paging.State() == Placed(old(paging.State()), entry) && d == FirstUnset(old(paging.directoryUsed[..]), 0)
      ensures code0 == CodeFrame(old(paging.State())) && stack == StackFrame(old(paging.State()), entry)
    {
      d := paging.CreateDirectory();
      code0 := paging.AllocateFrame(d, entry);
      stack := paging.AllocateFrame(d, STACK_ADDRESS);
    }

    /** Any pid may be asked for. `junk` is what the uninitialised flags of each release happen to hold,
        and `stray` what releases through a null directory happen to leave. */
    method DestroyProcess(pid: nat, junk: Flag, stray: Pages) returns (found: bool)
      requires Valid() && Destroyable(State(), pid)
      modifies this`activeCount, processList, processUsed
      modifies paging`freeCount, paging.frameMap, paging.tables, paging.directoryUsed
      ensures State() == Destroy(old(State()), pid, junk, stray)
      ensures (found <==> FirstPid(old(processList[..]), pid, 0) < PROCESS_COUNT)
    {
      hide ReleaseAll, DropDirectory, FramesInRange;
      var i := 0;
      while i < PROCESS_COUNT && processList[i].pid != pid
        invariant 0 <= i <= PROCESS_COUNT
        invariant FirstPid(processList[..], pid, 0) == FirstPid(processList[..], pid, i)
      {
        i := i + 1;
      }
      if i == PROCESS_COUNT { return false; }
      activeCount := activeCount - 1;
      processUsed[i] := false;
      var pcb := processList[pid];
      if pcb.context.directory == NO_DIRECTORY {
        paging.Overwrite(stray);
      } else {
        ReleaseFrames(pcb, junk);
        var freed := paging.FreeDirectory(pcb.context.directory);
      }
      processList[i] := ZERO_PCB;
      found := true;
    }

    method ReleaseFrames(pcb: Pcb, junk: Flag)
      requires Valid() && FramesInRange(paging.State()) && 0 <= pcb.context.directory <= KERNEL_DIRECTORY
      modifies paging`freeCount, paging.frameMap, paging.tables
      ensures paging.State() == ReleaseAll(old(paging.State()), pcb.context.directory, pcb.addresses, junk)
    {
      var d := pcb.context.directory;
      for j := 0 to FRAME_LIMIT
        invariant FramesInRange(paging.State())
        invariant ReleaseAll(old(paging.State()), d, pcb.addresses, junk) ==
                  ReleaseAll(paging.State(), d, pcb.addresses[j..], junk)
      {
        ReleaseInRange(paging.State(), d, pcb.addresses[j], junk);
        assert pcb.addresses[j..][1..] == pcb.addresses[j + 1..];
        var freed := paging.FreeFrame(d, pcb.addresses[j], junk);
      }
    }
  }

  function BootKernel(): Kernel {
    Kernel(seq<Pcb>(PROCESS_COUNT, i => ZERO_PCB), seq(PROCESS_COUNT, i => false), 0, 0, 0, KERNEL_DIRECTORY,
        FreshPages())
  }
}
