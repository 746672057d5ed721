/** What the file system promises, over single operations and over whole runs. */
module Guarantees {
  import opened Types
  import opened Layout
  import opened Operations
  import opened Structure
  import opened Preservation
  import opened Tree
  import opened Refinement
  import opened CrashSafety
  import opened DeleteCuts
  import opened HalfFolders

  // ----- formatting -----

  const ROOT_SHAPE: Shape := Shape(map[ROOT_CLUSTER := 0], map[])

  /** Formatting a disk whose other clusters show no entry in use, such as a blank one, gives a tree
      with an empty root. */
  lemma FormatInv(v: Volume)
    requires forall c :: ROOT_CLUSTER < c < CLUSTER_MAP_SIZE ==> AllDead(Tab(v, c))
    ensures var v' := Apply(v, FormatWrites(v));
            && Inv(v', FIRST_FAT, ROOT_SHAPE) && NoLeak(FIRST_FAT, ROOT_SHAPE) && FreeDead(Tabs(v'), FIRST_FAT)
            && Abs(v', FIRST_FAT, ROOT_SHAPE) == map[ROOT_CLUSTER := Directory(ROOT_NAME, ROOT_CLUSTER, map[])]
  {
    hide DecodeTable, EncodeTable, DecodeFat, EncodeFat, NewTable;
    var ws := FormatWrites(v);
    var v' := Apply(v, ws);
    assert ws == [ws[0], ws[1], ws[2]];
    Preservation.ApplyThree(v, ws[0], ws[1], ws[2]);
    FatOverlay(FIRST_FAT, ZERO_CLUSTER);
    TableOverlay(ROOT_TABLE, ZERO_CLUSTER);
    assert Signed(v') by { assert v'[BOOT_SECTOR][..BLOCK_SIZE] == SIGNATURE; }
    assert forall c :: ROOT_CLUSTER < c < CLUSTER_MAP_SIZE ==> Tab(v', c) == Tab(v, c);
    FormattedExact(v');
    NoEntries(v', FIRST_FAT, ROOT_TABLE, FIRST_SLOT);
    NewTableOk(ROOT_NAME, ROOT_CLUSTER, ROOT_CLUSTER);
    assert ROOT_TABLE[0] == DirEntry(ROOT_NAME, ROOT_CLUSTER) by { RootHeader(); }
  }

  lemma RootHeader()
    ensures ROOT_TABLE[0] == DirEntry(ROOT_NAME, ROOT_CLUSTER) && ROOT_TABLE[1] == DirEntry(DOTDOT, ROOT_CLUSTER)
  {
  }

  lemma FormattedExact(v: Volume)
    requires Tab(v, ROOT_CLUSTER) == ROOT_TABLE
    requires forall c :: ROOT_CLUSTER < c < CLUSTER_MAP_SIZE ==> AllDead(Tab(v, c))
    ensures Orderly(Tabs(v), FIRST_FAT, ROOT_SHAPE) && NoLeak(FIRST_FAT, ROOT_SHAPE) && FreeDead(Tabs(v), FIRST_FAT)
  {
    hide DecodeTable, NewTable;
    NewTableOk(ROOT_NAME, ROOT_CLUSTER, ROOT_CLUSTER);
    RootHeader();
    assert forall c :: ROOT_CLUSTER < c < CLUSTER_MAP_SIZE ==> FIRST_FAT[c] == EMPTY_ENTRY;
    assert Reserved(FIRST_FAT);
    assert TableOk(Tabs(v), ROOT_SHAPE, ROOT_CLUSTER);
  }

  /** A blank image qualifies. */
  lemma BlankDisk(v: Volume)
    requires forall c :: 0 <= c < IMAGE_CLUSTERS ==> v[c] == ZERO_CLUSTER
    ensures forall c :: 0 <= c < IMAGE_CLUSTERS ==> AllDead(Tab(v, c))
  {
    ZeroTable();
    hide DecodeTable;
  }

  // ----- runs -----

  /** The operations. A cut is a write or delete stopped after `k` cluster writes, followed by a remount; a
      mended cut is the creation of a folder stopped half-way, a remount, and the delete of the folder. */
  datatype Op =
    | DoWrite(r: Request) | DoDelete(r: Request) | DoRead(r: Request) | DoReadDirectory(r: Request) | Remount
    | CutWrite(r: Request, k: nat) | CutDelete(r: Request, k: nat) | MendedCut(r: Request)

  /** The disk, the cached table, and the witness of the tree. */
  datatype World = World(v: Volume, fat: Fat, g: Shape)

  /** What one operation reports: its code, the bytes read, the directory read. */
  datatype Outcome = Outcome(code: int, bytes: seq<byte>, dir: nat)

  /** Callers name live directories, give non-empty names and, to write, leave enough room. A cut may
      come anywhere but half-way through a new folder; there it must be mended before anything else. */
  predicate Allowed(w: World, op: Op) {
    op.Remount? ||
    (op.r.parent in w.g.depth && op.r.name != NO_NAME
     && (op.DoWrite? || op.CutWrite? || op.MendedCut? ==> Proper(op.r) && CanWrite(w.v, w.fat, op.r))
     && (op.MendedCut? ==> Admitted(Tab(w.v, op.r.parent), op.r) && op.r.bufferSize == 0
                           && NoChildren(Tab(w.v, FolderCell(w.fat, op.r))))
     && (op.CutWrite? ==> op.k <= |WritePlan(w.v, w.fat, op.r).writes| && !HalfFolder(w.v, op.r, op.k))
     && (op.CutDelete? && CanDelete(w.v, w.fat, op.r) ==> op.k <= |DeletePlan(w.v, w.fat, op.r).writes|))
  }

  ghost predicate Good(w: World) { Inv(w.v, w.fat, w.g) }

  /** The operation is safe to run: it follows no chain out of the map and overruns no buffer. */
  predicate Runnable(w: World, op: Op) {
    match op
    case DoWrite(r) => CanWrite(w.v, w.fat, r) && r.parent in w.g.depth
    case DoDelete(r) => CanDelete(w.v, w.fat, r)
    case DoRead(r) => CanRead(w.v, r)
    case DoReadDirectory(r) => CanReadDirectory(w.v, r)
    case Remount => Signed(w.v)
    case CutWrite(r, k) =>
      CanWrite(w.v, w.fat, r) && r.parent in w.g.depth && k <= |WritePlan(w.v, w.fat, r).writes|
    case CutDelete(r, k) => CanDelete(w.v, w.fat, r) && k <= |DeletePlan(w.v, w.fat, r).writes|
    case MendedCut(r) =>
      CanWrite(w.v, w.fat, r) && |WritePlan(w.v, w.fat, r).writes| >= 2
      && CanDelete(HalfDisk(w, r), FatOn(HalfDisk(w, r)), r)
  }

  /** The disk after the first two writes of a request. */
  function HalfDisk(w: World, r: Request): Volume
    requires CanWrite(w.v, w.fat, r) && |WritePlan(w.v, w.fat, r).writes| >= 2
  {
    Apply(w.v, WritePlan(w.v, w.fat, r).writes[..2])
  }

  /** One operation of the driver; a remount reloads the cached table from the signed disk. */
  function Step(w: World, op: Op): World
    requires Runnable(w, op)
  {
    match op
    case DoWrite(r) =>
      var p := WritePlan(w.v, w.fat, r);
      World(Apply(w.v, p.writes), p.fat, WriteShape(w.v, w.fat, w.g, r))
    case DoDelete(r) =>
      var p := DeletePlan(w.v, w.fat, r);
      World(Apply(w.v, p.writes), p.fat, DeleteShape(w.v, w.fat, w.g, r))
    case DoRead(r) => w.(fat := if Live(Tab(w.v, r.parent)[0]) then FatOn(w.v) else w.fat)
    case DoReadDirectory(_) => w
    case Remount => w.(fat := FatOn(w.v))
    case CutWrite(r, k) =>
      var v' := Apply(w.v, WritePlan(w.v, w.fat, r).writes[..k]);
      World(v', FatOn(v'), CutWriteShape(w.v, w.fat, w.g, r, k))
    case CutDelete(r, k) =>
      var v' := Apply(w.v, DeletePlan(w.v, w.fat, r).writes[..k]);
      World(v', FatOn(v'), CutDeleteShape(w.v, w.fat, w.g, r, k))
    case MendedCut(r) =>
      var half := HalfDisk(w, r);
      var p := DeletePlan(half, FatOn(half), r);
      World(Apply(half, p.writes), p.fat, w.g)
  }

  function Report(w: World, op: Op): Outcome
    requires Runnable(w, op)
  {
    match op
    case DoWrite(r) => Outcome(WritePlan(w.v, w.fat, r).code, [], 0)
    case DoDelete(r) => Outcome(DeletePlan(w.v, w.fat, r).code, [], 0)
    case DoRead(r) => Outcome(ReadPlan(w.v, r).code, Content(w.v, ReadPlan(w.v, r).cells), 0)
    case DoReadDirectory(r) =>
      var p := ReadDirectoryPlan(w.v, r);
      Outcome(p.code, [], if p.code == 0 then p.cells[0] else 0)
    case Remount | CutWrite(_, _) | CutDelete(_, _) | MendedCut(_) => Outcome(0, [], 0)
  }

  /** What the abstract file system allows `op` to report and to leave behind. A cut-off operation has
      been done in full once the parent was written, and not at all before. */
  ghost predicate StepSpec(a: FileTree, op: Op, out: Outcome, a': FileTree) {
    if op.Remount? then a' == a
    else
      op.r.parent in a &&
      match op
      case DoWrite(r) => (r.bufferSize > 0 ==> Buffered(r.buf, r.bufferSize)) && WriteSpec(a, r, out.code, a')
      case DoDelete(r) => DeleteSpec(a, r, out.code, a')
      case DoRead(r) => ReadSpec(a[r.parent], r, out.code, out.bytes) && a' == a
      case DoReadDirectory(r) => ReadDirectorySpec(a[r.parent], r, out.code, out.dir) && a' == a
      case CutWrite(r, k) =>
        (r.bufferSize > 0 ==> Buffered(r.buf, r.bufferSize))
        && if k > Linking(r) then WriteSpec(a, r, 0, a') else a' == a
      case CutDelete(r, k) => if k > 0 then DeleteSpec(a, r, 0, a') else a' == a
      case MendedCut(r) => a' == a
  }

  ghost function View(w: World): FileTree { Abs(w.v, w.fat, w.g) }

  /** One operation is safe, keeps the invariant and refines the abstract one. */
  lemma StepRefines(w: World, op: Op)
    requires Good(w) && Allowed(w, op)
    ensures Runnable(w, op) && Good(Step(w, op))
    ensures StepSpec(View(w), op, Report(w, op), View(Step(w, op)))
  {
    hide DecodeTable, DecodeFat, Inv, WriteSpec, DeleteSpec, ReadSpec, ReadDirectorySpec, DirectoryAt, WritePlan,
         DeletePlan, WriteShape, DeleteShape, CanRead, CanReadDirectory, CanDelete, Proper;
    InvCache(w.v, w.fat, w.g);
    match op {
      case DoWrite(r) =>
        WriteKeepsInv(w.v, w.fat, w.g, r);
        WriteRefines(w.v, w.fat, w.g, r);
        BufferedWrite(w, r);
      case DoDelete(r) =>
        DeleteKeepsInv(w.v, w.fat, w.g, r);
        DeleteRefines(w.v, w.fat, w.g, r);
      case DoRead(r) => ReadRefines(w.v, w.fat, w.g, r);
      case DoReadDirectory(r) => ReadDirectoryRefines(w.v, w.fat, w.g, r);
      case Remount =>
      case CutWrite(r, k) => CutWriteRefines(w, r, k);
      case CutDelete(r, k) => CutDeleteRefines(w, r, k);
      case MendedCut(r) => MendedCutRefines(w, r);
    }
  }

  lemma MendedCutRefines(w: World, r: Request)
    requires Good(w) && Allowed(w, MendedCut(r))
    ensures Runnable(w, MendedCut(r)) && Good(Step(w, MendedCut(r))) && Step(w, MendedCut(r)).fat == w.fat
    ensures StepSpec(View(w), MendedCut(r), Report(w, MendedCut(r)), View(Step(w, MendedCut(r))))
  {
    hide DecodeTable, FatOn, Inv, Abs, WritePlan, DeletePlan, Admitted, Needed;
    LiveKept(w, r.parent);
    HalfFolderRepaired(w.v, w.fat, w.g, r);
  }

  lemma CutWriteRefines(w: World, r: Request, k: nat)
    requires Good(w) && Allowed(w, CutWrite(r, k))
    ensures Runnable(w, CutWrite(r, k)) && Good(Step(w, CutWrite(r, k)))
    ensures StepSpec(View(w), CutWrite(r, k), Report(w, CutWrite(r, k)), View(Step(w, CutWrite(r, k))))
  {
    hide DecodeTable, FatOn, Inv, WriteSpec, Abs, FolderPlan, FilePlan, WriteShape, Needed;
    BufferedWrite(w, r);
    LiveKept(w, r.parent);
    CrashDuringWrite(w.v, w.fat, w.g, r, k);
    WriteRefines(w.v, w.fat, w.g, r);
  }

  lemma CutDeleteRefines(w: World, r: Request, k: nat)
    requires Good(w) && Allowed(w, CutDelete(r, k))
    ensures Runnable(w, CutDelete(r, k)) && Good(Step(w, CutDelete(r, k)))
    ensures StepSpec(View(w), CutDelete(r, k), Report(w, CutDelete(r, k)), View(Step(w, CutDelete(r, k))))
  {
    hide DecodeTable, FatOn, Inv, DeleteSpec, Abs, RemoveFolderPlan, RemoveFilePlan, DeleteShape;
    LiveKept(w, r.parent);
    DeleteAllowed(w.v, w.fat, w.g, r);
    CrashDuringDelete(w.v, w.fat, w.g, r, k);
    DeleteRefines(w.v, w.fat, w.g, r);
  }

  lemma LiveKept(w: World, d: nat)
    requires d in w.g.depth
    ensures d in View(w)
  {
  }

  lemma BufferedWrite(w: World, r: Request)
    requires CanWrite(w.v, w.fat, r)
    ensures r.bufferSize > 0 ==> Buffered(r.buf, r.bufferSize)
  {
  }

  /** The cached table is the one on disk and the boot signature is intact, so remounting between any
      two operations neither reformats nor changes anything. */
  lemma InvCache(v: Volume, fat: Fat, g: Shape)
    requires Inv(v, fat, g)
    ensures Signed(v) && FatOn(v) == fat
  {
  }

  /** Remounting a mounted disk changes nothing. */
  lemma RemountIdle(w: World)
    requires Good(w)
    ensures Runnable(w, Remount) && Step(w, Remount) == w
  {
    InvCache(w.v, w.fat, w.g);
  }

  /** Every operation of the run is allowed where it comes. */
  ghost predicate RunAllowed(w: World, ops: seq<Op>)
    requires Good(w)
    decreases |ops|
  {
    ops == [] || (Allowed(w, ops[0]) && (StepRefines(w, ops[0]); RunAllowed(Step(w, ops[0]), ops[1..])))
  }

  ghost function Run(w: World, ops: seq<Op>): (w': World)
    requires Good(w) && RunAllowed(w, ops)
    decreases |ops|
  {
    if ops == [] then w else StepRefines(w, ops[0]); Run(Step(w, ops[0]), ops[1..])
  }

  ghost function Reports(w: World, ops: seq<Op>): seq<Outcome>
    requires Good(w) && RunAllowed(w, ops)
    decreases |ops|
  {
    if ops == [] then []
    else StepRefines(w, ops[0]); [Report(w, ops[0])] + Reports(Step(w, ops[0]), ops[1..])
  }

  /** A run of the abstract file system. */
  ghost predicate RunSpec(a: FileTree, ops: seq<Op>, outs: seq<Outcome>, a': FileTree)
    decreases |ops|
  {
    if ops == [] then outs == [] && a' == a
    else |outs| == |ops| && exists mid :: StepSpec(a, ops[0], outs[0], mid) && RunSpec(mid, ops[1..], outs[1..], a')
  }

  /** Every run of the driver refines a run of the abstract file system with the same reports, and
      ends in a state that keeps the invariant. */
  lemma {:induction false} RunRefines(w: World, ops: seq<Op>)
    requires Good(w) && RunAllowed(w, ops)
    ensures Good(Run(w, ops))
    ensures RunSpec(View(w), ops, Reports(w, ops), View(Run(w, ops)))
    decreases |ops|
  {
    hide Good, View, StepSpec, Step, Report, Allowed, Runnable;
    if ops != [] {
      StepRefines(w, ops[0]);
      RunRefines(Step(w, ops[0]), ops[1..]);
      var outs := Reports(w, ops);
      assert outs[0] == Report(w, ops[0]) && outs[1..] == Reports(Step(w, ops[0]), ops[1..]);
    }
  }

  // ----- remounts -----

  /** The run without its remounts. */
  function Erased(ops: seq<Op>): seq<Op> {
    if ops == [] then [] else (if ops[0].Remount? then [] else [ops[0]]) + Erased(ops[1..])
  }

  /** The reports of a run without those of its remounts. */
  function Others(ops: seq<Op>, outs: seq<Outcome>): seq<Outcome>
    requires |outs| == |ops|
  {
    if ops == [] then [] else (if ops[0].Remount? then [] else [outs[0]]) + Others(ops[1..], outs[1..])
  }

  /** Remounts may come anywhere in a run: they neither allow nor forbid anything, and every other report
      and the final state are the same without them. */
  lemma {:induction false} RemountsChangeNothing(w: World, ops: seq<Op>)
    requires Good(w)
    ensures RunAllowed(w, Erased(ops)) <==> RunAllowed(w, ops)
    ensures RunAllowed(w, ops) ==>
              && Run(w, Erased(ops)) == Run(w, ops) && |Reports(w, ops)| == |ops|
              && Reports(w, Erased(ops)) == Others(ops, Reports(w, ops))
    decreases |ops|
  {
    hide Good, Step, Report, Allowed, Runnable;
    if ops != [] {
      var op, rest := ops[0], ops[1..];
      if op.Remount? {
        RemountIdle(w);
        RemountAllowed(w);
        RemountsChangeNothing(w, rest);
        assert op == Remount && Erased(ops) == Erased(rest);
        if RunAllowed(w, ops) {
          assert Reports(w, ops)[1..] == Reports(w, rest);
          assert Others(ops, Reports(w, ops)) == Others(rest, Reports(w, rest));
        }
      } else if Allowed(w, op) {
        StepRefines(w, op);
        RemountsChangeNothing(Step(w, op), rest);
        assert Erased(ops)[0] == op && Erased(ops)[1..] == Erased(rest);
      } else {
        assert Erased(ops)[0] == op;
      }
    }
  }

  lemma RemountAllowed(w: World)
    ensures Allowed(w, Remount)
  {
  }

  // ----- runs without a cut -----

  /** Nothing has leaked and no free cluster shows an entry in use. */
  predicate Tidy(w: World) { NoLeak(w.fat, w.g) && FreeDead(Tabs(w.v), w.fat) }

  lemma StepTidy(w: World, op: Op)
    requires Good(w) && Allowed(w, op) && Tidy(w) && !op.CutWrite? && !op.CutDelete? && !op.MendedCut?
    ensures Runnable(w, op) && Tidy(Step(w, op))
  {
    hide DecodeTable, FatOn, Inv, WritePlan, DeletePlan, WriteShape, DeleteShape, NoLeak, FreeDead, CanDelete,
         CanRead, CanReadDirectory;
    StepRefines(w, op);
    InvCache(w.v, w.fat, w.g);
    match op {
      case DoWrite(r) => WriteKeepsTidy(w.v, w.fat, w.g, r);
      case DoDelete(r) => DeleteKeepsTidy(w.v, w.fat, w.g, r);
      case _ =>
    }
  }

  /** As long as no operation is cut off, nothing leaks and free clusters show no entry in use. */
  lemma {:induction false} RunTidy(w: World, ops: seq<Op>)
    requires Good(w) && RunAllowed(w, ops) && Tidy(w)
    requires forall i :: 0 <= i < |ops| ==> !ops[i].CutWrite? && !ops[i].CutDelete? && !ops[i].MendedCut?
    ensures Tidy(Run(w, ops))
    decreases |ops|
  {
    hide Good, Step, Allowed, Runnable, Tidy;
    if ops != [] {
      StepRefines(w, ops[0]);
      StepTidy(w, ops[0]);
      assert forall i :: 0 <= i < |ops[1..]| ==> ops[1..][i] == ops[i + 1];
      RunTidy(Step(w, ops[0]), ops[1..]);
    }
  }

  // ----- runs from a blank disk -----

  const EMPTY_TREE: FileTree := map[ROOT_CLUSTER := Directory(ROOT_NAME, ROOT_CLUSTER, map[])]

  /** A blank image, formatted. */
  function Formatted(v: Volume): World { World(Apply(v, FormatWrites(v)), FIRST_FAT, ROOT_SHAPE) }

  /** Every run on a freshly formatted blank image refines a run that starts from the empty tree. */
  lemma FormattedRunRefines(v: Volume, ops: seq<Op>)
    requires forall c :: 0 <= c < IMAGE_CLUSTERS ==> v[c] == ZERO_CLUSTER
    ensures Good(Formatted(v)) && Tidy(Formatted(v))
    ensures RunAllowed(Formatted(v), ops) ==>
              Good(Run(Formatted(v), ops))
              && RunSpec(EMPTY_TREE, ops, Reports(Formatted(v), ops), View(Run(Formatted(v), ops)))
  {
    hide DecodeTable, Inv, FormatWrites, RunAllowed, RunSpec, Run, Reports;
    BlankDisk(v);
    FormatInv(v);
    if RunAllowed(Formatted(v), ops) { RunRefines(Formatted(v), ops); }
  }
}
