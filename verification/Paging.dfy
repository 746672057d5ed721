/** Physical frames of 4 MiB and the page directories that map them. */
module Paging {

  const FRAME_COUNT := 32
  const FRAME_SIZE := 0x40_0000
  const PDE_COUNT := 1024
  const DIRECTORY_COUNT := 32
  /** Index of the kernel's own page directory, beside the 32 of the directory list. */
  const KERNEL_DIRECTORY := 32
  const KERNEL_PAGE := 0x300
  const WORD := 0x1_0000_0000

  datatype Flag = Flag(present: bool, write: bool, user: bool, writeThrough: bool, noCache: bool,
                       accessed: bool, dirty: bool, large: bool)

  const NO_FLAG := Flag(false, false, false, false, false, false, false, false)
  const USER_FLAG := Flag(true, true, true, false, false, false, false, true)
  const KERNEL_FLAG := Flag(true, true, false, false, false, false, false, true)

  /** A page directory entry of a 4 MiB page; `frame` are its ten address bits. */
  datatype Pde = Pde(flag: Flag, frame: nat)

  const NO_PDE := Pde(NO_FLAG, 0)
  const KERNEL_PDE := Pde(KERNEL_FLAG, 0)

  type Directory = t: seq<Pde> | |t| == 1024 witness seq(1024, i => NO_PDE)
  type FrameMap = m: seq<bool> | |m| == 32 witness seq(32, i => false)
  type Directories = ds: seq<Directory> | |ds| == 33 witness seq<Directory>(33, i => EMPTY_DIRECTORY)

  function EmptyDirectory(): Directory { seq(PDE_COUNT, i => NO_PDE) }

  const EMPTY_DIRECTORY: Directory := EmptyDirectory()

  /** The page a 32-bit virtual address lies in: its top ten bits. */
  function PageOf(vaddr: nat): (i: nat)
    ensures i < PDE_COUNT
  {
    vaddr / FRAME_SIZE % PDE_COUNT
  }

  /** The state of the page manager. */
  datatype Pages = Pages(taken: FrameMap, free: int, dirs: Directories, used: FrameMap)

  /** Before kernel setup: no frame taken, the kernel mapped at both halves of its directory. */
  function FreshPages(): Pages {
    Pages(seq(FRAME_COUNT, i => false), FRAME_COUNT,
          seq<Directory>(DIRECTORY_COUNT, i => EMPTY_DIRECTORY)
          + [EMPTY_DIRECTORY[0 := KERNEL_PDE][KERNEL_PAGE := KERNEL_PDE]],
          seq(DIRECTORY_COUNT, i => false))
  }

  function FirstUnset(m: FrameMap, i: nat): (f: nat)
    requires i <= 32
    ensures i <= f <= 32
    ensures forall k :: i <= k < f ==> m[k]
    ensures f < 32 ==> !m[f]
    decreases 32 - i
  {
    if i == 32 || !m[i] then i else FirstUnset(m, i + 1)
  }

  /** Frames not set from `i` on. */
  function Unset(m: FrameMap, i: nat): nat
    requires i <= 32
    decreases 32 - i
  {
    if i == 32 then 0 else (if m[i] then 0 else 1) + Unset(m, i + 1)
  }

  // ----- the operations on values -----

  function Map(p: Pages, d: nat, page: nat, e: Pde): Pages
    requires d <= KERNEL_DIRECTORY && page < PDE_COUNT
  {
    p.(dirs := p.dirs[d := p.dirs[d][page := e]])
  }

  /** The frame the next allocation takes, or -1 when all are taken. */
  function NextFrame(p: Pages): int {
    var f := FirstUnset(p.taken, 0);
    if f == FRAME_COUNT then -1 else f
  }

  /** First-fit allocation for a virtual address; nothing changes when no frame is left. */
  function Allocate(p: Pages, d: nat, vaddr: nat): Pages
    requires d <= KERNEL_DIRECTORY
  {
    var f := FirstUnset(p.taken, 0);
    if f == FRAME_COUNT then p
    else Map(p.(taken := p.taken[f := true], free := p.free - 1), d, PageOf(vaddr), Pde(USER_FLAG, f))
  }

  /** Release of the frame a virtual address maps to. The entry then holds frame bits 0 and whatever
      flags the uninitialised variable `junk` held. */
  function Release(p: Pages, d: nat, vaddr: nat, junk: Flag): Pages
    requires d <= KERNEL_DIRECTORY && p.dirs[d][PageOf(vaddr)].frame < FRAME_COUNT
  {
    var f := p.dirs[d][PageOf(vaddr)].frame;
    if p.taken[f] then Map(p.(taken := p.taken[f := false], free := p.free + 1), d, PageOf(vaddr), Pde(junk, 0))
    else p
  }

  /** Taking a directory from the list: the first unused one, with the kernel mapped. */
  function TakeDirectory(p: Pages): Pages {
    var d := FirstUnset(p.used, 0);
    if d == DIRECTORY_COUNT then p
    else p.(used := p.used[d := true], dirs := p.dirs[d := p.dirs[d][KERNEL_PAGE := KERNEL_PDE]])
  }

  function DropDirectory(p: Pages, d: nat): Pages {
    if d < DIRECTORY_COUNT then p.(used := p.used[d := false], dirs := p.dirs[d := EMPTY_DIRECTORY]) else p
  }

  // ----- the page manager -----

  class PageManager {
    const frameMap: array<bool>
    var freeCount: int
    const tables: array<Directory>
    const directoryUsed: array<bool>

    ghost predicate Valid() {
      && frameMap.Length == FRAME_COUNT && tables.Length == DIRECTORY_COUNT + 1
      && directoryUsed.Length == DIRECTORY_COUNT && frameMap != directoryUsed
    }

    ghost function State(): Pages
      reads this, frameMap, tables, directoryUsed
      requires Valid()
    {
      Pages(frameMap[..], freeCount, tables[..], directoryUsed[..])
    }

    constructor ()
      ensures Valid() && fresh(frameMap) && fresh(tables) && fresh(directoryUsed)
      ensures State() == FreshPages()
    {
      frameMap := new bool[FRAME_COUNT](i => false);
      freeCount := FRAME_COUNT;
      tables := new Directory[DIRECTORY_COUNT + 1](i => EMPTY_DIRECTORY);
      directoryUsed := new bool[DIRECTORY_COUNT](i => false);
      new;
      tables[KERNEL_DIRECTORY] := EMPTY_DIRECTORY[0 := KERNEL_PDE][KERNEL_PAGE := KERNEL_PDE];
      assert tables[..] == FreshPages().dirs;
    }

    method UpdateEntry(d: nat, frame: nat, vaddr: nat, flag: Flag)
      requires Valid() && d <= KERNEL_DIRECTORY
      modifies tables
      ensures State() == Map(old(State()), d, PageOf(vaddr), Pde(flag, frame))
    {
      tables[d] := tables[d][PageOf(vaddr) := Pde(flag, frame)];
    }

    method AllocateCheck(amount: nat) returns (enough: bool)
      requires Valid()
      ensures enough <==> amount <= freeCount
    {
      enough := !(amount > freeCount);
    }

    method AllocateFrame(d: nat, vaddr: nat) returns (frame: int)
      requires Valid() && d <= KERNEL_DIRECTORY
      modifies this`freeCount, frameMap, tables
      ensures State() == Allocate(old(State()), d, vaddr) && frame == NextFrame(old(State()))
    {
      var i := 0;
      while i < FRAME_COUNT && frameMap[i]
        invariant 0 <= i <= FRAME_COUNT
        invariant FirstUnset(frameMap[..], 0) == FirstUnset(frameMap[..], i)
      {
        i := i + 1;
      }
      if i == FRAME_COUNT { return -1; }
      frameMap[i] := true;
      freeCount := freeCount - 1;
      UpdateEntry(d, i, vaddr, USER_FLAG);
      frame := i;
    }

    method FreeFrame(d: nat, vaddr: nat, junk: Flag) returns (freed: bool)
      requires Valid() && d <= KERNEL_DIRECTORY && tables[d][PageOf(vaddr)].frame < FRAME_COUNT
      modifies this`freeCount, frameMap, tables
      ensures State() == Release(old(State()), d, vaddr, junk)
      ensures freed == old(frameMap[tables[d][PageOf(vaddr)].frame])
    {
      var f := tables[d][PageOf(vaddr)].frame;
      if frameMap[f] {
        frameMap[f] := false;
        UpdateEntry(d, 0, vaddr, junk);
        freeCount := freeCount + 1;
        return true;
      }
      return false;
    }

    method CreateDirectory() returns (d: int)
      requires Valid()
      modifies tables, directoryUsed
      ensures State() == TakeDirectory(old(State()))
      ensures d == var i := FirstUnset(old(directoryUsed[..]), 0); if i == DIRECTORY_COUNT then -1 else i
    {
      var i := 0;
      while i < DIRECTORY_COUNT && directoryUsed[i]
        invariant 0 <= i <= DIRECTORY_COUNT
        invariant FirstUnset(directoryUsed[..], 0) == FirstUnset(directoryUsed[..], i)
      {
        i := i + 1;
      }
      if i == DIRECTORY_COUNT { return -1; }
      directoryUsed[i] := true;
      tables[i] := tables[i][KERNEL_PAGE := KERNEL_PDE];
      d := i;
    }

    /** What a stray write into the page manager may do to it. */
    method Overwrite(p: Pages)
      requires Valid()
      modifies this`freeCount, frameMap, tables, directoryUsed
      ensures State() == p
    {
      freeCount := p.free;
      forall i | 0 <= i < FRAME_COUNT { frameMap[i] := p.taken[i]; }
      forall i | 0 <= i < DIRECTORY_COUNT { directoryUsed[i] := p.used[i]; }
      forall i | 0 <= i <= DIRECTORY_COUNT { tables[i] := p.dirs[i]; }
    }

    /** The answer is false also for a directory of the list. */
    method FreeDirectory(d: nat) returns (freed: bool)
      requires Valid() && d <= KERNEL_DIRECTORY
      modifies tables, directoryUsed
      ensures State() == DropDirectory(old(State()), d) && !freed
    {
      freed := false;
      for i := 0 to DIRECTORY_COUNT
        invariant State() == if d < i then DropDirectory(old(State()), d) else old(State())
      {
        if i == d {
          directoryUsed[i] := false;
          tables[d] := EMPTY_DIRECTORY;
        }
      }
    }
  }

  // ----- the invariant -----

  /** A page of a directory. */
  datatype Slot = Slot(dir: nat, page: nat)

  predicate Mapped(p: Pages, m: map<Slot, nat>, s: Slot)
    requires s in m
  {
    s.dir <= KERNEL_DIRECTORY && s.page < PDE_COUNT && m[s] < FRAME_COUNT && p.taken[m[s]]
    && p.dirs[s.dir][s.page] == Pde(USER_FLAG, m[s])
  }

  predicate Covered(taken: FrameMap, m: map<Slot, nat>) {
    forall f :: 0 <= f < FRAME_COUNT && taken[f] ==> f in m.Values
  }

  predicate Injective(m: map<Slot, nat>) {
    forall s, s' :: s in m && s' in m && m[s] == m[s'] ==> s == s'
  }

  /** `m` gives the frame of every page allocated and not released. No frame is mapped twice, the frame
      map is exactly the set of mapped frames, and the counter counts the unset cells. */
  ghost predicate Consistent(p: Pages, m: map<Slot, nat>) {
    && (forall s :: s in m ==> Mapped(p, m, s))
    && Injective(m) && Covered(p.taken, m)
    && p.free == Unset(p.taken, 0)
  }

  lemma {:induction false} UnsetChange(m: FrameMap, f: nat, b: bool, i: nat)
    requires f < 32 && i <= 32 && m[f] != b
    ensures Unset(m[f := b], i) == Unset(m, i) + if i <= f then (if b then -1 else 1) else 0
    decreases 32 - i
  {
    if i < 32 { UnsetChange(m, f, b, i + 1); }
  }

  lemma {:induction false} UnsetPositive(m: FrameMap, i: nat)
    requires i <= 32
    ensures Unset(m, i) > 0 <==> FirstUnset(m, i) < 32
    decreases 32 - i
  {
    if i < 32 { UnsetPositive(m, i + 1); }
  }

  lemma {:induction false} AllUnset(i: nat)
    requires i <= 32
    ensures Unset(FreshPages().taken, i) == 32 - i
    decreases 32 - i
  {
    if i < 32 { AllUnset(i + 1); }
  }

  lemma FreshConsistent()
    ensures Consistent(FreshPages(), map[])
  {
    AllUnset(0);
  }

  function TakenFrom(taken: FrameMap, i: nat): set<nat> { set f | i <= f < 32 && taken[f] }

  lemma {:induction false} TakenCount(taken: FrameMap, i: nat)
    requires i <= 32
    ensures |TakenFrom(taken, i)| + Unset(taken, i) == 32 - i
    decreases 32 - i
  {
    if i < 32 {
      TakenCount(taken, i + 1);
      assert TakenFrom(taken, i) == TakenFrom(taken, i + 1) + if taken[i] then {i} else {};
    } else {
      assert TakenFrom(taken, 32) == {};
    }
  }

  lemma {:induction false} InjectiveCount(m: map<Slot, nat>)
    requires Injective(m)
    ensures |m.Values| == |m|
    decreases |m|
  {
    if m != map[] {
      var s :| s in m;
      var rest := m - {s};
      assert rest[s := m[s]] == m;
      InjectiveCount(rest);
      assert m.Values == rest.Values + {m[s]};
      assert m[s] !in rest.Values;
    } else {
      assert m.Values == {};
    }
  }

  /** Every frame is either free or mapped by exactly one page. */
  lemma FramesCounted(p: Pages, m: map<Slot, nat>)
    requires Consistent(p, m)
    ensures p.free + |m| == FRAME_COUNT
  {
    hide Injective, Unset;
    TakenCount(p.taken, 0);
    InjectiveCount(m);
    forall f | f in m.Values ensures f in TakenFrom(p.taken, 0) {
      var s :| s in m && m[s] == f;
      assert Mapped(p, m, s);
    }
    assert m.Values == TakenFrom(p.taken, 0);
  }

  /** An allocation for an unmapped page maps a frame nothing else maps, as long as the counter is
      positive; otherwise it changes nothing. */
  lemma AllocateKeeps(p: Pages, m: map<Slot, nat>, d: nat, vaddr: nat)
    requires Consistent(p, m) && d <= KERNEL_DIRECTORY && Slot(d, PageOf(vaddr)) !in m
    ensures NextFrame(p) >= 0 <==> p.free > 0
    ensures NextFrame(p) >= 0 ==> Consistent(Allocate(p, d, vaddr), m[Slot(d, PageOf(vaddr)) := NextFrame(p)])
                                  && NextFrame(p) !in m.Values && Allocate(p, d, vaddr).free == p.free - 1
    ensures NextFrame(p) < 0 ==> Allocate(p, d, vaddr) == p
  {
    hide Injective, Covered, Mapped, Unset, PageOf;
    UnsetPositive(p.taken, 0);
    var f, s := FirstUnset(p.taken, 0), Slot(d, PageOf(vaddr));
    if f < FRAME_COUNT {
      UnsetChange(p.taken, f, true, 0);
      AllocateMapped(p, m, d, vaddr);
      AddValue(p.taken, m, s, f);
    }
  }

  lemma AllocateMapped(p: Pages, m: map<Slot, nat>, d: nat, vaddr: nat)
    requires (forall s :: s in m ==> Mapped(p, m, s)) && d <= KERNEL_DIRECTORY && Slot(d, PageOf(vaddr)) !in m
    requires FirstUnset(p.taken, 0) < FRAME_COUNT
    ensures var m' := m[Slot(d, PageOf(vaddr)) := FirstUnset(p.taken, 0)];
            forall t :: t in m' ==> Mapped(Allocate(p, d, vaddr), m', t)
    ensures FirstUnset(p.taken, 0) !in m.Values
  {
    hide PageOf;
    forall t | t in m ensures m[t] != FirstUnset(p.taken, 0) { assert Mapped(p, m, t); }
    var m' := m[Slot(d, PageOf(vaddr)) := FirstUnset(p.taken, 0)];
    forall t | t in m' ensures Mapped(Allocate(p, d, vaddr), m', t) {
      if t in m { assert Mapped(p, m, t); }
    }
  }

  lemma AddValue(taken: FrameMap, m: map<Slot, nat>, s: Slot, f: nat)
    requires s !in m && f < FRAME_COUNT && f !in m.Values && Injective(m) && Covered(taken, m)
    ensures Injective(m[s := f]) && Covered(taken[f := true], m[s := f])
  {
    var m' := m[s := f];
    forall k | 0 <= k < FRAME_COUNT && taken[f := true][k] ensures k in m'.Values {
      if k == f {
        assert m'[s] == f;
      } else {
        var t :| t in m && m[t] == k;
        assert m'[t] == k;
      }
    }
  }

  lemma DropValue(taken: FrameMap, m: map<Slot, nat>, s: Slot)
    requires s in m && m[s] < FRAME_COUNT && Injective(m) && Covered(taken, m)
    ensures Injective(m - {s}) && Covered(taken[m[s] := false], m - {s})
  {
    var m' := m - {s};
    forall k | 0 <= k < FRAME_COUNT && taken[m[s] := false][k] ensures k in m'.Values {
      var t :| t in m && m[t] == k;
      assert t in m' && m'[t] == k;
    }
  }

  /** Releasing a mapped page gives its frame back and disturbs no other mapping. */
  lemma ReleaseKeeps(p: Pages, m: map<Slot, nat>, d: nat, vaddr: nat, junk: Flag)
    requires Consistent(p, m) && d <= KERNEL_DIRECTORY && Slot(d, PageOf(vaddr)) in m
    ensures p.dirs[d][PageOf(vaddr)].frame == m[Slot(d, PageOf(vaddr))] < FRAME_COUNT
    ensures Consistent(Release(p, d, vaddr, junk), m - {Slot(d, PageOf(vaddr))})
    ensures Release(p, d, vaddr, junk).free == p.free + 1
  {
    hide Covered, Unset, PageOf;
    var s := Slot(d, PageOf(vaddr));
    assert Mapped(p, m, s);
    var f, p', m' := m[s], Release(p, d, vaddr, junk), m - {s};
    UnsetChange(p.taken, f, false, 0);
    forall t | t in m' ensures Mapped(p', m', t) {
      assert Mapped(p, m, t);
    }
    DropValue(p.taken, m, s);
  }

  /** Runs of allocations: for each page in turn. */
  function AllocateAll(p: Pages, slots: seq<Slot>): Pages
    requires forall s :: s in slots ==> s.dir <= KERNEL_DIRECTORY
    decreases |slots|
  {
    if slots == [] then p else AllocateAll(Allocate(p, slots[0].dir, slots[0].page * FRAME_SIZE), slots[1..])
  }

  /** A positive check for `n` frames means the next `n` allocations of unmapped pages all succeed,
      with frames distinct from each other and from every frame in use. */
  lemma {:induction false} CheckedAllocations(p: Pages, m: map<Slot, nat>, slots: seq<Slot>)
    returns (m': map<Slot, nat>)
    requires Consistent(p, m) && |slots| <= p.free
    requires forall s :: s in slots ==> s.dir <= KERNEL_DIRECTORY && s.page < PDE_COUNT && s !in m
    requires forall i, j :: 0 <= i < j < |slots| ==> slots[i] != slots[j]
    ensures Consistent(AllocateAll(p, slots), m') && AllocateAll(p, slots).free == p.free - |slots|
    ensures m'.Keys == m.Keys + set s | s in slots
    ensures forall s :: s in m ==> m'[s] == m[s]
    decreases |slots|
  {
    hide Consistent, Allocate;
    if slots == [] {
      m' := m;
    } else {
      var s, rest := slots[0], slots[1..];
      assert PageOf(s.page * FRAME_SIZE) == s.page;
      AllocateKeeps(p, m, s.dir, s.page * FRAME_SIZE);
      assert forall i :: 0 <= i < |rest| ==> rest[i] == slots[i + 1];
      m' := CheckedAllocations(Allocate(p, s.dir, s.page * FRAME_SIZE), m[s := NextFrame(p)], rest);
      assert m'.Keys == m.Keys + {s} + set x | x in rest;
    }
  }

  // ----- runs of allocations and releases -----

  datatype Use = Taking(s: Slot) | Giving(s: Slot, junk: Flag)

  /** Callers allocate for unmapped pages and release mapped ones. */
  predicate Usable(m: map<Slot, nat>, u: Use) {
    u.s.dir <= KERNEL_DIRECTORY && u.s.page < PDE_COUNT && (u.Taking? <==> u.s !in m)
  }

  /** The mappings after `u`: one more, unless no frame was left, or one fewer. */
  function Accounted(p: Pages, m: map<Slot, nat>, u: Use): map<Slot, nat> {
    if u.Giving? then m - {u.s} else if NextFrame(p) >= 0 then m[u.s := NextFrame(p)] else m
  }

  function UsePages(p: Pages, u: Use): Pages
    requires u.s.dir <= KERNEL_DIRECTORY && u.s.page < PDE_COUNT
    requires u.Giving? ==> p.dirs[u.s.dir][PageOf(u.s.page * FRAME_SIZE)].frame < FRAME_COUNT
  {
    match u
    case Taking(s) => Allocate(p, s.dir, s.page * FRAME_SIZE)
    case Giving(s, junk) => Release(p, s.dir, s.page * FRAME_SIZE, junk)
  }

  lemma UseKeeps(p: Pages, m: map<Slot, nat>, u: Use)
    requires Consistent(p, m) && Usable(m, u)
    ensures u.Giving? ==> p.dirs[u.s.dir][PageOf(u.s.page * FRAME_SIZE)].frame < FRAME_COUNT
    ensures Consistent(UsePages(p, u), Accounted(p, m, u))
  {
    hide Consistent, Allocate, Release;
    assert PageOf(u.s.page * FRAME_SIZE) == u.s.page;
    match u
    case Taking(s) => AllocateKeeps(p, m, s.dir, s.page * FRAME_SIZE);
    case Giving(s, junk) =>
      ReleaseKeeps(p, m, s.dir, s.page * FRAME_SIZE, junk);
  }

  ghost predicate AllUsable(p: Pages, m: map<Slot, nat>, us: seq<Use>)
    requires Consistent(p, m)
    decreases |us|
  {
    us == [] ||
    (Usable(m, us[0]) && (UseKeeps(p, m, us[0]); AllUsable(UsePages(p, us[0]), Accounted(p, m, us[0]), us[1..])))
  }

  /** The page manager and the mappings after a run. */
  ghost function AfterUses(p: Pages, m: map<Slot, nat>, us: seq<Use>): (Pages, map<Slot, nat>)
    requires Consistent(p, m) && AllUsable(p, m, us)
    decreases |us|
  {
    if us == [] then (p, m)
    else UseKeeps(p, m, us[0]); AfterUses(UsePages(p, us[0]), Accounted(p, m, us[0]), us[1..])
  }

  /** Over any run no frame is mapped twice, the frame map stays the set of mapped frames, the counter
      stays the number of unset cells, and free frames and mapped pages add up to all frames. */
  lemma {:induction false} RunKeepsFrames(p: Pages, m: map<Slot, nat>, us: seq<Use>)
    requires Consistent(p, m) && AllUsable(p, m, us)
    ensures Consistent(AfterUses(p, m, us).0, AfterUses(p, m, us).1)
    ensures AfterUses(p, m, us).0.free + |AfterUses(p, m, us).1| == FRAME_COUNT
    decreases |us|
  {
    hide Consistent, UsePages, Accounted;
    FramesCounted(p, m);
    if us != [] {
      UseKeeps(p, m, us[0]);
      RunKeepsFrames(UsePages(p, us[0]), Accounted(p, m, us[0]), us[1..]);
    }
  }

  // ----- what the hardware sees -----

  /** The kernel's page of directory `d`: present, writable, 4 MiB large, for the supervisor only, and showing
      frame 0 at 0xC0000000. */
  predicate KernelMapped(p: Pages, d: nat)
    requires d <= KERNEL_DIRECTORY
  {
    var e := p.dirs[d][0x300];
    e.flag.present && e.flag.write && e.flag.large && !e.flag.user && e.frame == 0 && PageOf(0xC000_0000) == 0x300
  }

  /** A new directory maps the kernel, and so does the kernel's own. */
  lemma NewDirectoryMapsKernel(p: Pages)
    requires FirstUnset(p.used, 0) < DIRECTORY_COUNT
    ensures KernelMapped(TakeDirectory(p), FirstUnset(p.used, 0)) && KernelMapped(FreshPages(), KERNEL_DIRECTORY)
  {
  }

  /** An allocation makes its page present, writable, 4 MiB large and open to the user, showing the frame
      taken, and leaves every other page of every directory alone. */
  lemma AllocatedPage(p: Pages, d: nat, vaddr: nat)
    requires d <= KERNEL_DIRECTORY && NextFrame(p) >= 0
    ensures var p', e := Allocate(p, d, vaddr), Allocate(p, d, vaddr).dirs[d][PageOf(vaddr)];
            && e.flag.present && e.flag.write && e.flag.user && e.flag.large
            && !e.flag.writeThrough && !e.flag.noCache && !e.flag.accessed && !e.flag.dirty
            && e.frame == NextFrame(p) && !p.taken[e.frame] && p'.taken[e.frame]
            && forall c, page :: 0 <= c <= KERNEL_DIRECTORY && 0 <= page < PDE_COUNT ==>
                 (c == d && page == PageOf(vaddr)) || p'.dirs[c][page] == p.dirs[c][page]
  {
  }

  /** Page `i` holds the 4 MiB of addresses from 4 MiB * i on. */
  lemma PageRange(vaddr: nat, i: nat)
    requires vaddr < 0x1_0000_0000
    ensures PageOf(vaddr) == i <==> 0x40_0000 * i <= vaddr < 0x40_0000 * (i + 1)
  {
    var q := vaddr / 0x40_0000;
    assert q < 1024 && vaddr == 0x40_0000 * q + vaddr % 0x40_0000;
  }

  /** A directory given back is unused and shows nothing, and no other directory changes. */
  lemma DroppedDirectory(p: Pages, d: nat)
    requires d < 32
    ensures var p' := DropDirectory(p, d);
            && !p'.used[d]
            && (forall page :: 0 <= page < 1024 ==> !p'.dirs[d][page].flag.present && p'.dirs[d][page].frame == 0)
            && (forall c :: 0 <= c < 32 && c != d ==> p'.used[c] == p.used[c] && p'.dirs[c] == p.dirs[c])
            && p'.dirs[32] == p.dirs[32] && p'.taken == p.taken && p'.free == p.free
  {
  }

  /** Every page accounted for is such a page. */
  lemma MappedPage(p: Pages, m: map<Slot, nat>, s: Slot)
    requires Consistent(p, m) && s in m
    ensures s.dir <= KERNEL_DIRECTORY && s.page < PDE_COUNT
    ensures var e := p.dirs[s.dir][s.page];
            e.flag.present && e.flag.write && e.flag.user && e.flag.large && e.frame == m[s]
  {
    assert Mapped(p, m, s);
  }

  /** A user page the processor would translate. */
  predicate Visible(p: Pages, s: Slot) {
    s.dir <= KERNEL_DIRECTORY && s.page < PDE_COUNT && p.dirs[s.dir][s.page].flag.present
    && p.dirs[s.dir][s.page].flag.user
  }

  /** After a release the processor no longer translates the page exactly when the uninitialised flag
      variable happened not to say "present user page"; if it did, the page shows frame 0. */
  lemma ReleasedPageHidden(p: Pages, m: map<Slot, nat>, d: nat, vaddr: nat, junk: Flag)
    requires Consistent(p, m) && d <= KERNEL_DIRECTORY && Slot(d, PageOf(vaddr)) in m
    ensures p.dirs[d][PageOf(vaddr)].frame < FRAME_COUNT
    ensures var p' := Release(p, d, vaddr, junk);
            && (Visible(p', Slot(d, PageOf(vaddr))) <==> junk.present && junk.user)
            && p'.dirs[d][PageOf(vaddr)].frame == 0
            && forall s :: s != Slot(d, PageOf(vaddr)) ==> (Visible(p', s) <==> Visible(p, s))
  {
    assert Mapped(p, m, Slot(d, PageOf(vaddr)));
  }
}
