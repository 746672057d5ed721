/** The one cut that breaks the invariant: a new folder its parent shows and whose own table is not
    written yet. */
module HalfFolders {
  import opened Types
  import opened Layout
  import opened Chains
  import opened Operations
  import opened Structure
  import opened Preservation
  import opened Tree
  import opened Refinement
  import opened Consequences
  import opened TreeShape
  import opened CrashSafety

  /** `b` is `a` with the folder of request `r` linked in as `c`, empty, its header not yet known. */
  ghost predicate FolderLinked(a: FileTree, r: Request, c: nat, b: FileTree)
    requires r.parent in a
  {
    c !in a && c in b && b[c].entries == map[]
    && b == a[r.parent := Plus(a[r.parent], Key(r.name, r.ext), DirNode(c))][c := b[c]]
  }

  /** Once the parent shows a new folder, its cluster, not yet written, reads as an empty table, if it held
      no entry in use. */
  lemma FolderHalfway(v: Volume, fat: Fat, g: Shape, r: Request)
    requires Inv(v, fat, g) && Adding(v, fat, g, r) && r.bufferSize == 0 && |WritePlan(v, fat, r).writes| == 3
    requires NoChildren(Tab(v, FolderCell(fat, r)))
    ensures var vk := Apply(v, WritePlan(v, fat, r).writes[..2]); var g' := WriteShape(v, fat, g, r);
            && Sound(Tabs(vk), FatOn(vk), g')
            && FolderLinked(Abs(v, fat, g), r, AddedCells(fat, r)[0], Abs(vk, FatOn(vk), g'))
  {
    hide DecodeTable, EncodeTable, DecodeFat, EncodeFat, WritePlan, NodeOf, EntriesFrom, AddShape, Plus, Join, Inv,
         Abs, Picks, Admitted, WriteShape, FolderLinked, FatOn;
    var c, vk := AddedCells(fat, r)[0], Apply(v, WritePlan(v, fat, r).writes[..2]);
    HalfwayDisk(v, fat, g, r);
    HalfwayAdd(v, fat, g, r, vk, Join(fat, AddedCells(fat, r)));
  }

  /** The disk after the two first writes of a new folder. */
  lemma HalfwayDisk(v: Volume, fat: Fat, g: Shape, r: Request)
    requires Inv(v, fat, g) && Adding(v, fat, g, r) && r.bufferSize == 0
    ensures |WritePlan(v, fat, r).writes| == 3
    ensures var vk, c := Apply(v, WritePlan(v, fat, r).writes[..2]), AddedCells(fat, r)[0];
            && FatOn(vk) == Join(fat, AddedCells(fat, r))
            && Tab(vk, r.parent) == Tab(v, r.parent)[AddedPlace(v, r).slot := AddedEntry(fat, r)]
            && (forall d :: 0 <= d < IMAGE_CLUSTERS && d != r.parent && d != FAT_CLUSTER ==> vk[d] == v[d])
            && AddedCells(fat, r) == [c] && ROOT_CLUSTER < c < CLUSTER_MAP_SIZE && fat[c] == EMPTY_ENTRY
            && c != r.parent
  {
    hide DecodeTable, EncodeTable, DecodeFat, EncodeFat, WritePlan, Join, Inv, Picks, Admitted, AllDead, AddedEntry;
    var p, cells := WritePlan(v, fat, r), AddedCells(fat, r);
    var ws, c := p.writes, cells[0];
    WriteOrder(v, fat, g, r);
    FreshCells(v, fat, g, 1);
    assert c in cells && ws[..2] == [] + [ws[0], ws[1]];
    ApplyTwo(v, [], ws[0], ws[1]);
    LiveTable(v, fat, g, r.parent);
    FatOverlay(p.fat, ZERO_CLUSTER);
    TableOverlay(p.dir, ZERO_CLUSTER);
  }

  lemma HalfwayAdd(v: Volume, fat: Fat, g: Shape, r: Request, vk: Volume, fat': Fat)
    requires Inv(v, fat, g) && Adding(v, fat, g, r) && r.bufferSize == 0
    requires fat' == Join(fat, AddedCells(fat, r)) && NoChildren(Tab(v, FolderCell(fat, r)))
    requires Tab(vk, r.parent) == Tab(v, r.parent)[AddedPlace(v, r).slot := AddedEntry(fat, r)]
    requires forall d :: 0 <= d < IMAGE_CLUSTERS && d != r.parent && d != FAT_CLUSTER ==> vk[d] == v[d]
    ensures Sound(Tabs(vk), fat', WriteShape(v, fat, g, r))
    ensures FolderLinked(Abs(v, fat, g), r, AddedCells(fat, r)[0], Abs(vk, fat', WriteShape(v, fat, g, r)))
  {
    hide DecodeTable, Join, AddedEntry, AddStep, Inv, Picks, Tabs, Sound, FolderLinked, Abs, Admitted, KeyOf;
    HalfwayStep(v, fat, g, r, vk, fat');
    InvFat(v, fat, g);
    AddSound(Tabs(v), fat, g, Tabs(vk), fat', AddedPlace(v, r), AddedEntry(fat, r), AddedCells(fat, r));
    HalfwayLinked(v, fat, g, r, vk, fat');
  }

  lemma HalfwayLinked(v: Volume, fat: Fat, g: Shape, r: Request, vk: Volume, fat': Fat)
    requires Inv(v, fat, g) && Adding(v, fat, g, r) && r.bufferSize == 0
    requires AddStep(Tabs(v), fat, g, Tabs(vk), fat', AddedPlace(v, r), AddedEntry(fat, r), AddedCells(fat, r))
    requires DataKept(v, vk, g.owner, r.parent) && NoChildren(Tab(vk, FolderCell(fat, r)))
    requires var t := Tab(v, r.parent); forall s :: FIRST_SLOT <= s < TABLE_SIZE && Live(t[s]) ==>
             KeyOf(t[s]) != KeyOf(AddedEntry(fat, r))
    ensures FolderLinked(Abs(v, fat, g), r, AddedCells(fat, r)[0], Abs(vk, fat', WriteShape(v, fat, g, r)))
  {
    hide DecodeTable, NodeOf, EntriesFrom, Plus, Join, AddedEntry, AddStep, Inv, KeysUnique, DeadNameless, Picks,
         Tabs, Sound, IsDirTable, NoChildren, FolderLinked;
    var p, e, cells := AddedPlace(v, r), AddedEntry(fat, r), AddedCells(fat, r);
    InvFat(v, fat, g);
    FreshCells(v, fat, g, 1);
    LiveDirectory(v, fat, g, r.parent);
    AddedEntryOk(v, fat, g, r);
    AddRefines(v, fat, g, vk, fat', p, e, cells);
    ReadNode(vk, fat', e);
    assert cells[0] in cells;
    EmptyDirectory(vk, fat', WriteShape(v, fat, g, r), cells[0]);
    LinkedFolder(Abs(v, fat, g), r, cells[0], Abs(vk, fat', WriteShape(v, fat, g, r)));
  }

  lemma LinkedFolder(a: FileTree, r: Request, c: nat, b: FileTree)
    requires r.parent in a && c !in a && b.Keys == a.Keys + {c} && b[c].entries == map[]
    requires b[r.parent] == Plus(a[r.parent], Key(r.name, r.ext), DirNode(c))
    requires forall d :: d in a && d != r.parent ==> b[d] == a[d]
    ensures FolderLinked(a, r, c, b)
  {
    hide Plus;
  }

  lemma EmptyDirectory(v: Volume, fat: Fat, g: Shape, d: nat)
    requires d < CLUSTER_MAP_SIZE && NoChildren(Tab(v, d))
    ensures DirectoryAt(v, fat, g, d).entries == map[]
  {
    hide DecodeTable;
    NoEntries(v, fat, Tab(v, d), FIRST_SLOT);
  }

  lemma HalfwayStep(v: Volume, fat: Fat, g: Shape, r: Request, vk: Volume, fat': Fat)
    requires Inv(v, fat, g) && Adding(v, fat, g, r) && r.bufferSize == 0
    requires fat' == Join(fat, AddedCells(fat, r)) && NoChildren(Tab(v, FolderCell(fat, r)))
    requires Tab(vk, r.parent) == Tab(v, r.parent)[AddedPlace(v, r).slot := AddedEntry(fat, r)]
    requires forall d :: 0 <= d < IMAGE_CLUSTERS && d != r.parent && d != FAT_CLUSTER ==> vk[d] == v[d]
    ensures AddStep(Tabs(v), fat, g, Tabs(vk), fat', AddedPlace(v, r), AddedEntry(fat, r), AddedCells(fat, r))
    ensures DataKept(v, vk, g.owner, r.parent) && NoChildren(Tab(vk, AddedCells(fat, r)[0]))
    ensures var t := Tab(v, r.parent); forall s :: FIRST_SLOT <= s < TABLE_SIZE && Live(t[s]) ==>
            KeyOf(t[s]) != KeyOf(AddedEntry(fat, r))
  {
    hide DecodeTable, Join, Orderly, AddedEntry, KeysUnique, DeadNameless, HeadOk, Picks, MakeEntry;
    FreshCells(v, fat, g, 1);
    LiveTable(v, fat, g, r.parent);
    AddedEntryOk(v, fat, g, r);
    var t, c := Tab(v, r.parent), AddedCells(fat, r)[0];
    assert c in AddedCells(fat, r);
    forall d | d in g.depth ensures d < CLUSTER_MAP_SIZE && (d != r.parent ==> Tabs(vk)[d] == Tabs(v)[d]) {
      LiveTable(v, fat, g, d);
    }
    forall x | x in g.owner && x < CLUSTER_MAP_SIZE ensures x != FAT_CLUSTER { VisibleCluster(v, fat, g, x); }
    forall s | FIRST_SLOT <= s < TABLE_SIZE && Live(t[s]) ensures KeyOf(t[s]) != KeyOf(AddedEntry(fat, r)) {
      assert !Matches(t[s], r.name, r.ext);
    }
  }

  /** Half-way through a new folder the invariant holds for no tree: the parent shows a folder whose own
      header is dead, if its cluster held no entry in use. */
  lemma HalfFolderBreaks(v: Volume, fat: Fat, g: Shape, r: Request, h: Shape)
    requires Inv(v, fat, g) && Adding(v, fat, g, r) && r.bufferSize == 0 && AllDead(Tab(v, FolderCell(fat, r)))
    ensures |WritePlan(v, fat, r).writes| == 3
    ensures var vk := Apply(v, WritePlan(v, fat, r).writes[..2]); !Inv(vk, FatOn(vk), h)
  {
    hide DecodeTable, WritePlan, Sound, Tabs, FatOn, WriteShape, AddedCells, Picks, DirectoryAt, Orderly;
    HalfwayDisk(v, fat, g, r);
    FolderHalfway(v, fat, g, r);
    var vk, g', c := Apply(v, WritePlan(v, fat, r).writes[..2]), WriteShape(v, fat, g, r), AddedCells(fat, r)[0];
    if Inv(vk, FatOn(vk), h) {
      LiveIffReachable(Tabs(vk), FatOn(vk), g', c);
      InvFat(vk, FatOn(vk), h);
      LiveIffReachable(Tabs(vk), FatOn(vk), h, c);
      LiveTable(vk, FatOn(vk), h, c);
    }
  }

  /** Until then the half-made folder turns every request away. */
  lemma HalfFolderRefuses(v: Volume, fat: Fat, g: Shape, r: Request, q: Request)
    requires Inv(v, fat, g) && Adding(v, fat, g, r) && r.bufferSize == 0
    requires q.parent == FolderCell(fat, r) && !Live(Tab(v, q.parent)[0])
    ensures |WritePlan(v, fat, r).writes| == 3
    ensures var vk := Apply(v, WritePlan(v, fat, r).writes[..2]); var f := FatOn(vk);
            && CanDelete(vk, f, q) && CanRead(vk, q) && CanReadDirectory(vk, q)
            && (CanWrite(vk, f, q) ==> WritePlan(vk, f, q).code == 2 && WritePlan(vk, f, q).writes == [])
            && DeletePlan(vk, f, q).code == -1 && DeletePlan(vk, f, q).writes == []
            && ReadPlan(vk, q).code == -1 && ReadDirectoryPlan(vk, q).code == -1
  {
    hide DecodeTable, WritePlan, DeletePlan, Inv, FatOn, AddedCells, Picks, Admitted;
    HalfwayDisk(v, fat, g, r);
    var vk := Apply(v, WritePlan(v, fat, r).writes[..2]);
    DeadParentRejected(vk, FatOn(vk), q);
  }

  /** On the disk `vk` a delete of `r` succeeds and brings back the tree and the allocation table of `v`. */
  ghost predicate Repaired(v: Volume, fat: Fat, g: Shape, r: Request, vk: Volume) {
    && CanDelete(vk, FatOn(vk), r)
    && var p := DeletePlan(vk, FatOn(vk), r);
       && p.code == 0 && p.fat == fat
       && Inv(Apply(vk, p.writes), fat, g) && Abs(Apply(vk, p.writes), fat, g) == Abs(v, fat, g)
  }

  /** Deleting the half-made folder succeeds, if its cluster shows no entry in use, and restores the
      invariant, the tree and the allocation table from before its creation. */
  lemma HalfFolderRepaired(v: Volume, fat: Fat, g: Shape, r: Request)
    requires Inv(v, fat, g) && Adding(v, fat, g, r) && r.bufferSize == 0
    requires NoChildren(Tab(v, FolderCell(fat, r)))
    ensures |WritePlan(v, fat, r).writes| == 3
    ensures Repaired(v, fat, g, r, Apply(v, WritePlan(v, fat, r).writes[..2]))
  {
    hide DecodeTable, DecodeFat, WritePlan, DeletePlan, Inv, Abs, Picks, Admitted, Apply, Join, WriteShape,
         DeleteShape;
    HalfwayDisk(v, fat, g, r);
    var w, vk, c := WritePlan(v, fat, r), Apply(v, WritePlan(v, fat, r).writes[..2]), AddedCells(fat, r)[0];
    var v1, g1 := Apply(v, w.writes), WriteShape(v, fat, g, r);
    DeleteUndoesWrite(v, fat, g, r);
    DirsStay(v, fat, g, r);
    WriteKeepsInv(v, fat, g, r);
    DeleteKeepsInv(v1, w.fat, g1, r);
    ShapeUndone(v, fat, g, r);
    WholeFolder(v, fat, g, r);
    FolderDeletes(v, fat, g, r, vk, v1);
    var z, z' := Apply(v1, DeletePlan(v1, w.fat, r).writes), Apply(vk, DeletePlan(vk, FatOn(vk), r).writes);
    InvFat(z, fat, g);
    InvReserved(z, fat, g);
    FreeUnowned(z, fat, g, c);
    Unchanged(z, fat, g, z', fat);
  }

  /** Deleting the folder just made takes its shape back to the one before. */
  lemma ShapeUndone(v: Volume, fat: Fat, g: Shape, r: Request)
    requires Inv(v, fat, g) && Adding(v, fat, g, r) && r.bufferSize == 0
    ensures var w := WritePlan(v, fat, r); DeleteShape(Apply(v, w.writes), w.fat, WriteShape(v, fat, g, r), r) == g
  {
    hide DecodeTable, WritePlan, DeletePlan, Inv, Picks, Admitted, Apply, Join, Chain, FindKey, AddedEntry;
    var w, cells, p := WritePlan(v, fat, r), AddedCells(fat, r), AddedPlace(v, r);
    var v1, g1 := Apply(v, w.writes), WriteShape(v, fat, g, r);
    WriteEffect(v, fat, g, r);
    AddedEntryOk(v, fat, g, r);
    FreshCells(v, fat, g, 1);
    LiveTable(v, fat, g, r.parent);
    AdmittedSlots(v, fat, r);
    FoundAgain(Tab(v, r.parent), p.slot, AddedEntry(fat, r), r);
    JoinChain(fat, cells, 0);
    assert cells[0] in cells && cells[0..] == cells;
    NewTableOk(r.name, cells[0], r.parent);
    assert EntryAt(Tabs(v1), p) == AddedEntry(fat, r) && RemovedPlace(v1, r) == p;
    assert g1 == AddShape(g, p, AddedEntry(fat, r), cells);
    assert DeleteShape(v1, w.fat, g1, r).depth == g.depth;
    assert DeleteShape(v1, w.fat, g1, r).owner == g.owner;
  }

  lemma AdmittedSlots(v: Volume, fat: Fat, r: Request)
    requires Admitted(Tab(v, r.parent), r)
    ensures FIRST_SLOT <= AddedPlace(v, r).slot < TABLE_SIZE
    ensures FindKey(Tab(v, r.parent), r.name, r.ext, FIRST_SLOT) == TABLE_SIZE
  {
  }

  /** The third write of a new folder only writes the folder's own cluster. */
  lemma WholeFolder(v: Volume, fat: Fat, g: Shape, r: Request)
    requires Inv(v, fat, g) && Adding(v, fat, g, r) && r.bufferSize == 0 && |WritePlan(v, fat, r).writes| == 3
    ensures var w, c := WritePlan(v, fat, r), AddedCells(fat, r)[0];
            && w.fat == Join(fat, AddedCells(fat, r)) && c < CLUSTER_MAP_SIZE && NoChildren(Tab(Apply(v, w.writes), c))
            && Apply(v, w.writes) == Apply(v, w.writes[..2])[c := Apply(v, w.writes)[c]]
  {
    hide DecodeTable, EncodeTable, DecodeFat, EncodeFat, WritePlan, Inv, Join, Picks, Admitted, NewTable, AddedEntry;
    WriteOrder(v, fat, g, r);
    FreshCells(v, fat, g, 1);
    var ws, c := WritePlan(v, fat, r).writes, AddedCells(fat, r)[0];
    assert c in AddedCells(fat, r);
    assert ws == ws[..2] + [ws[2]];
    ApplyAppend(v, ws[..2], ws[2]);
    TableOverlay(NewTable(r.name, c, r.parent), ZERO_CLUSTER);
    NewTableOk(r.name, c, r.parent);
  }

  /** The same folder deleted on two disks that differ in its own cluster: so do the outcomes. */
  lemma FolderDeletes(v: Volume, fat: Fat, g: Shape, r: Request, vk: Volume, v1: Volume)
    requires Adding(v, fat, g, r) && r.bufferSize == 0 && Inv(v, fat, g)
    requires AddedCells(fat, r)[0] < CLUSTER_MAP_SIZE && AddedCells(fat, r)[0] > ROOT_CLUSTER
    requires AddedCells(fat, r)[0] != r.parent
    requires v1 == vk[AddedCells(fat, r)[0] := v1[AddedCells(fat, r)[0]]]
    requires NoChildren(Tab(v1, AddedCells(fat, r)[0])) && NoChildren(Tab(vk, AddedCells(fat, r)[0]))
    requires Tab(vk, r.parent) == Tab(v, r.parent)[AddedPlace(v, r).slot := AddedEntry(fat, r)]
    requires FatOn(vk) == Join(fat, AddedCells(fat, r))
    ensures CanDelete(vk, FatOn(vk), r) && CanDelete(v1, FatOn(vk), r)
    ensures var p, p1 := DeletePlan(vk, FatOn(vk), r), DeletePlan(v1, FatOn(vk), r);
            && p.code == p1.code == 0 && p.fat == p1.fat
            && (forall d :: 0 <= d < IMAGE_CLUSTERS && d != AddedCells(fat, r)[0] ==>
                  Apply(vk, p.writes)[d] == Apply(v1, p1.writes)[d])
  {
    hide DecodeTable, EncodeTable, DecodeFat, EncodeFat, Inv, Join, Picks, Apply;
    var t, s, e, c := Tab(v, r.parent), AddedPlace(v, r).slot, AddedEntry(fat, r), AddedCells(fat, r)[0];
    AddedEntryOk(v, fat, g, r);
    LiveTable(v, fat, g, r.parent);
    FoundAgain(t, s, e, r);
    JoinChain(fat, AddedCells(fat, r), 0);
    var p, p1 := DeletePlan(vk, FatOn(vk), r), DeletePlan(v1, FatOn(vk), r);
    assert p == RemoveFolderPlan(vk, FatOn(vk), r.parent, t[s := e], s);
    assert p1 == RemoveFolderPlan(v1, FatOn(vk), r.parent, t[s := e], s);
    assert p.writes == [p.writes[0], p.writes[1], p.writes[2]];
    assert p1.writes == [p1.writes[0], p1.writes[1], p1.writes[2]];
    ApplyThree(vk, p.writes[0], p.writes[1], p.writes[2]);
    ApplyThree(v1, p1.writes[0], p1.writes[1], p1.writes[2]);
  }

  lemma FreeUnowned(v: Volume, fat: Fat, g: Shape, c: nat)
    requires Inv(v, fat, g) && c < CLUSTER_MAP_SIZE && fat[c] == EMPTY_ENTRY
    ensures c !in g.owner && c !in g.depth
  {
    hide DecodeTable;
    if c in g.depth { LiveTable(v, fat, g, c); }
    if c in g.owner {
      assert Owned(Tabs(v), fat, g, c) && EntryOk(Tabs(v), fat, g, g.owner[c]);
      ChainCells(fat, Head(Tabs(v), g.owner[c]));
    }
  }

  /** A write cut off keeps the invariant, for some tree, exactly when it is not half-way through a new
      folder. */
  lemma CutKeepsInvExactly(v: Volume, fat: Fat, g: Shape, r: Request, k: nat)
    requires Inv(v, fat, g) && r.parent in g.depth && Proper(r) && CanWrite(v, fat, r)
    requires HalfFolder(v, r, k) ==> AllDead(Tab(v, FolderCell(fat, r)))
    requires k <= |WritePlan(v, fat, r).writes|
    ensures var vk := Apply(v, WritePlan(v, fat, r).writes[..k]);
            (exists h :: Inv(vk, FatOn(vk), h)) <==> !HalfFolder(v, r, k)
  {
    hide Inv, WritePlan, FatOn, FreeDead, CutWriteShape, Apply;
    if HalfFolder(v, r, k) {
      forall h
        ensures !Inv(Apply(v, WritePlan(v, fat, r).writes[..2]), FatOn(Apply(v, WritePlan(v, fat, r).writes[..2])), h)
      {
        HalfFolderBreaks(v, fat, g, r, h);
      }
    } else {
      CrashDuringWrite(v, fat, g, r, k);
    }
  }
}
