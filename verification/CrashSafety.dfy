/** The order of the cluster writes: what the disk alone shows after the first `k` of them. Wherever an
    operation is cut off, the driver's invariant holds for the tree from before or the tree from after,
    except between the two last writes of a new folder. Clusters may leak, and free clusters may be left
    with bytes that look like entries in use; the lemmas say exactly when. */
module CrashSafety {
  import opened Types
  import opened Layout
  import opened Chains
  import opened Operations
  import opened Structure
  import opened Preservation
  import opened Tree
  import opened Refinement

  // ----- prefixes of a write list -----

  lemma {:induction false} PrefixUntouched(v: Volume, ws: seq<Update>, k: nat, d: ClusterNo)
    requires k <= |ws| && forall j :: 0 <= j < k ==> ws[j].cluster != d
    ensures Apply(v, ws[..k])[d] == v[d]
  {
    if k > 0 {
      PrefixUntouched(v, ws, k - 1, d);
      assert ws[..k][..k - 1] == ws[..k - 1];
    }
  }

  lemma {:induction false} PrefixWritten(v: Volume, ws: seq<Update>, k: nat, i: nat)
    requires i < k <= |ws| && forall j :: i < j < k ==> ws[j].cluster != ws[i].cluster
    ensures Apply(v, ws[..k])[ws[i].cluster] == ws[i].content
    decreases k
  {
    assert ws[..k][..k - 1] == ws[..k - 1];
    if i < k - 1 { PrefixWritten(v, ws, k - 1, i); }
  }

  // ----- a disk on which nothing visible has changed -----

  /** Writes outside live clusters and cells leave the invariant and the tree alone. */
  lemma Unchanged(v: Volume, fat: Fat, g: Shape, v': Volume, fat': Fat)
    requires Inv(v, fat, g) && FatOn(v') == fat' && v'[BOOT_SECTOR] == v[BOOT_SECTOR] && Reserved(fat')
    requires forall d: nat :: d < CLUSTER_MAP_SIZE && (d in g.owner || d in g.depth) ==>
            v'[d] == v[d] && fat'[d] == fat[d]
    ensures Inv(v', fat', g) && Abs(v', fat', g) == Abs(v, fat, g)
  {
    hide DecodeTable, DecodeFat, DirectoryAt, Orderly, Reserved;
    OrderlyFrame(Tabs(v), fat, g, Tabs(v'), fat');
    forall d | d in g.depth ensures DirectoryAt(v', fat', g, d) == DirectoryAt(v, fat, g, d) {
      UnchangedDirectory(v, fat, g, v', fat', d);
    }
  }

  lemma UnchangedDirectory(v: Volume, fat: Fat, g: Shape, v': Volume, fat': Fat, d: nat)
    requires Inv(v, fat, g) && d in g.depth
    requires forall d: nat :: d < CLUSTER_MAP_SIZE && (d in g.owner || d in g.depth) ==>
            v'[d] == v[d] && fat'[d] == fat[d]
    ensures DirectoryAt(v', fat', g, d) == DirectoryAt(v, fat, g, d)
  {
    hide DecodeTable, DecodeFat, NodeOf, EntriesFrom, Chain, Reserved, OwnersTrue, EntriesWellFormed, TablesOk,
         Signed, DirOk;
    LiveTable(v, fat, g, d);
    var t := Tab(v, d);
    forall s | FIRST_SLOT <= s < TABLE_SIZE && Live(t[s]) ensures NodeOf(v', fat', t[s]) == NodeOf(v, fat, t[s]) {
      var q := Place(d, s);
      assert EntryAt(Tabs(v), q) == t[s] && IsPlace(Tabs(v), g, q) && EntryOk(Tabs(v), fat, g, q);
      ChainCells(fat, FirstCluster(t[s]));
      ChainFrame(fat, fat', FirstCluster(t[s]));
      NodeKept(v, fat, v', fat', t[s]);
    }
    EntriesFrame(v, fat, t, v', fat', Tab(v', d), FIRST_SLOT);
  }

  // ----- write -----

  /** The writes of an admitted request that come before the one of the parent's table. */
  function Linking(r: Request): nat { if r.bufferSize == 0 then 1 else Needed(r) + 1 }

  /** First the data, one cluster of the chain after the other, then the allocation table, then the
      parent's table, and for a folder its own table last. */
  lemma WriteOrder(v: Volume, fat: Fat, g: Shape, r: Request)
    requires Inv(v, fat, g) && Adding(v, fat, g, r)
    ensures var p, cells, n := WritePlan(v, fat, r), AddedCells(fat, r), Linking(r);
            && |p.writes| == (if r.bufferSize == 0 then 3 else n + 1)
            && p.fat == Join(fat, cells)
            && p.dir == Tab(v, r.parent)[AddedPlace(v, r).slot := AddedEntry(fat, r)]
            && (forall j :: 0 <= j < n - 1 ==> p.writes[j] == Put(cells[j], FilePart(r.buf, r.bufferSize, j)))
            && p.writes[n - 1] == Put(FAT_CLUSTER, EncodeFat(p.fat))
            && p.writes[n] == Put(r.parent, EncodeTable(p.dir))
            && (r.bufferSize == 0 ==> p.writes[2] == Put(cells[0], EncodeTable(NewTable(r.name, cells[0], r.parent))))
  {
    hide DecodeTable, EncodeTable, DecodeFat, EncodeFat, FilePart, NewTable, Inv;
    FreshCells(v, fat, g, Needed(r));
    var cells := AddedCells(fat, r);
    if r.bufferSize > 0 {
      FileWritesCells(r.buf, r.bufferSize, cells, Needed(r));
    } else {
      assert cells == [cells[0]];
    }
  }

  lemma {:induction false} FileWritesCells(buf: seq<byte>, size: nat, cells: seq<nat>, n: nat)
    requires Buffered(buf, size) && InMap(cells) && n <= |cells| && n <= ClustersNeeded(size)
    ensures forall j :: 0 <= j < n ==> FileWrites(buf, size, cells, n)[j] == Put(cells[j], FilePart(buf, size, j))
  {
    hide FilePart;
    if n > 0 { FileWritesCells(buf, size, cells, n - 1); }
  }

  /** The allocation table on disk changes with one write, from the old one to the new one. */
  lemma FatAtCut(v: Volume, fat: Fat, g: Shape, r: Request, k: nat)
    requires Inv(v, fat, g) && Adding(v, fat, g, r) && k <= |WritePlan(v, fat, r).writes|
    ensures FatOn(Apply(v, WritePlan(v, fat, r).writes[..k])) ==
            if k < Linking(r) then fat else Join(fat, AddedCells(fat, r))
  {
    hide DecodeTable, EncodeTable, DecodeFat, EncodeFat, WritePlan, Inv, Join, Apply, Picks, Admitted, FilePart;
    var p := WritePlan(v, fat, r);
    WriteOrder(v, fat, g, r);
    FreshCells(v, fat, g, Needed(r));
    LiveTable(v, fat, g, r.parent);
    FatOverlay(p.fat, ZERO_CLUSTER);
    InvFat(v, fat, g);
    var cells, n := AddedCells(fat, r), Linking(r);
    forall j | 0 <= j < |p.writes| && j != n - 1 ensures p.writes[j].cluster != FAT_CLUSTER {
      assert j < |cells| ==> cells[j] in cells;
      assert cells[0] in cells;
    }
    if k < n { PrefixUntouched(v, p.writes, k, FAT_CLUSTER); } else { PrefixWritten(v, p.writes, k, n - 1); }
  }

  /** Clusters off the new chain and the parent keep their bytes at every cut. */
  lemma CutElsewhere(v: Volume, fat: Fat, g: Shape, r: Request, k: nat, d: ClusterNo)
    requires Inv(v, fat, g) && Adding(v, fat, g, r) && k <= |WritePlan(v, fat, r).writes|
    requires d != FAT_CLUSTER && (d == r.parent ==> k <= Linking(r))
    requires d in AddedCells(fat, r) ==> k >= Linking(r) && k <= 2 && r.bufferSize == 0
    ensures Apply(v, WritePlan(v, fat, r).writes[..k])[d] == v[d]
  {
    hide DecodeTable, EncodeTable, DecodeFat, EncodeFat, WritePlan, Inv, Join, Apply, Picks, Admitted, FilePart;
    WriteOrder(v, fat, g, r);
    FreshCells(v, fat, g, Needed(r));
    var ws, cells := WritePlan(v, fat, r).writes, AddedCells(fat, r);
    forall j | 0 <= j < k ensures ws[j].cluster != d {
      assert j < |cells| ==> cells[j] in cells;
      assert cells[0] in cells;
    }
    PrefixUntouched(v, ws, k, d);
  }

  /** Up to and including the allocation-table write nothing is visible. */
  lemma WriteHidden(v: Volume, fat: Fat, g: Shape, r: Request, k: nat)
    requires Inv(v, fat, g) && Adding(v, fat, g, r) && k <= Linking(r) && k < |WritePlan(v, fat, r).writes|
    ensures var vk := Apply(v, WritePlan(v, fat, r).writes[..k]);
            Inv(vk, FatOn(vk), g) && Abs(vk, FatOn(vk), g) == Abs(v, fat, g)
  {
    hide DecodeTable, DecodeFat, WritePlan, Abs, Tabs, Inv, Join, Apply, Picks, Admitted, IsDirTable, Needed;
    var cells, vk := AddedCells(fat, r), Apply(v, WritePlan(v, fat, r).writes[..k]);
    FreshCells(v, fat, g, Needed(r));
    FatAtCut(v, fat, g, r, k);
    JoinUses(fat, cells);
    InvReserved(v, fat, g);
    CutElsewhere(v, fat, g, r, k, BOOT_SECTOR);
    forall d: nat | d < CLUSTER_MAP_SIZE && (d in g.owner || d in g.depth)
      ensures vk[d] == v[d] && FatOn(vk)[d] == fat[d]
    {
      VisibleCluster(v, fat, g, d);
      CutElsewhere(v, fat, g, r, k, d);
    }
    Unchanged(v, fat, g, vk, FatOn(vk));
  }

  lemma InvFat(v: Volume, fat: Fat, g: Shape)
    requires Inv(v, fat, g)
    ensures FatOn(v) == fat && Sound(Tabs(v), fat, g)
  {
  }

  lemma VisibleCluster(v: Volume, fat: Fat, g: Shape, d: nat)
    requires Inv(v, fat, g) && (d in g.owner || d in g.depth)
    ensures ROOT_CLUSTER <= d
  {
    if d in g.owner { assert Owned(Tabs(v), fat, g, d); }
    if d in g.depth { assert DirOk(Tabs(v), g, d); }
  }

  /** The cut falls between the parent's write and the write of the new folder's own table. */
  predicate HalfFolder(v: Volume, r: Request, k: nat) {
    Admitted(Tab(v, r.parent), r) && r.bufferSize == 0 && k == 2
  }

  /** The shape of the tree on disk after `k` writes: the new entry is in it once the parent is written. */
  function CutWriteShape(v: Volume, fat: Fat, g: Shape, r: Request, k: nat): Shape
    requires CanWrite(v, fat, r) && r.parent in g.depth
  {
    if k > Linking(r) then WriteShape(v, fat, g, r) else g
  }

  /** Wherever a write is cut off but half-way through a new folder, the disk alone satisfies the
      driver's invariant and shows, headers included, exactly the tree from before, until the parent is
      written, and then exactly the tree from after. */
  lemma CrashDuringWrite(v: Volume, fat: Fat, g: Shape, r: Request, k: nat)
    requires Inv(v, fat, g) && r.parent in g.depth && Proper(r) && CanWrite(v, fat, r)
    requires k <= |WritePlan(v, fat, r).writes| && !HalfFolder(v, r, k)
    ensures var p, g' := WritePlan(v, fat, r), CutWriteShape(v, fat, g, r, k);
            var vk := Apply(v, p.writes[..k]);
            && Inv(vk, FatOn(vk), g')
            && Abs(vk, FatOn(vk), g')
               == if k > Linking(r) then Abs(Apply(v, p.writes), p.fat, WriteShape(v, fat, g, r)) else Abs(v, fat, g)
  {
    hide DecodeTable, FolderPlan, FilePlan, Inv, Abs, WriteShape, Needed, FatOn;
    var p := WritePlan(v, fat, r);
    assert p.writes[..|p.writes|] == p.writes;
    if Admitted(Tab(v, r.parent), r) {
      WriteOrder(v, fat, g, r);
      if k <= Linking(r) {
        WriteHidden(v, fat, g, r, k);
      } else {
        WriteKeepsInv(v, fat, g, r);
        InvFat(Apply(v, p.writes), p.fat, WriteShape(v, fat, g, r));
      }
    } else {
      assert p.writes == [] && p.writes[..k] == [];
      assert Apply(v, []) == v;
      InvFat(v, fat, g);
    }
  }

  /** A write cut off leaks, beyond what had leaked before, exactly when the allocation table is written and
      the parent is not, and then exactly the clusters of the new chain. */
  lemma WriteLeaks(v: Volume, fat: Fat, g: Shape, r: Request, k: nat, c: nat)
    requires Inv(v, fat, g) && Adding(v, fat, g, r) && k <= |WritePlan(v, fat, r).writes|
    ensures Leaked(FatOn(Apply(v, WritePlan(v, fat, r).writes[..k])), CutWriteShape(v, fat, g, r, k), c) <==>
              Leaked(fat, g, c) || (k == Linking(r) && c in AddedCells(fat, r))
  {
    hide DecodeTable, WritePlan, Inv, Join, Picks, Admitted, FatOn, Apply;
    FatAtCut(v, fat, g, r, k);
    FreshCells(v, fat, g, Needed(r));
    JoinUses(fat, AddedCells(fat, r));
  }

  /** A write cut off leaves no entry in a free cluster exactly when the allocation table is written, or
      none of the data clusters written so far looks like a table with an entry in use. */
  lemma WriteLeavesDead(v: Volume, fat: Fat, g: Shape, r: Request, k: nat)
    requires Inv(v, fat, g) && Adding(v, fat, g, r) && FreeDead(Tabs(v), fat) && k <= |WritePlan(v, fat, r).writes|
    ensures var vk := Apply(v, WritePlan(v, fat, r).writes[..k]);
            FreeDead(Tabs(vk), FatOn(vk)) <==>
              (k < Linking(r) ==> forall j :: 0 <= j < k ==> AllDead(DecodeTable(FilePart(r.buf, r.bufferSize, j))))
  {
    hide DecodeTable, WritePlan, Inv, Join, Picks, Admitted, FatOn, Apply, FilePart, AllDead;
    FatAtCut(v, fat, g, r, k);
    FreshCells(v, fat, g, Needed(r));
    JoinUses(fat, AddedCells(fat, r));
    OtherFree(v, fat, g, r, k);
    if k < Linking(r) { DataSoFar(v, fat, g, r, k); }
  }

  /** Free clusters off the new chain keep their bytes. */
  lemma OtherFree(v: Volume, fat: Fat, g: Shape, r: Request, k: nat)
    requires Inv(v, fat, g) && Adding(v, fat, g, r) && k <= |WritePlan(v, fat, r).writes|
    ensures var vk := Apply(v, WritePlan(v, fat, r).writes[..k]);
            forall c :: ROOT_CLUSTER < c < CLUSTER_MAP_SIZE && fat[c] == EMPTY_ENTRY && c !in AddedCells(fat, r) ==>
              Tabs(vk)[c] == Tabs(v)[c]
  {
    hide DecodeTable, WritePlan, Inv, Picks, Admitted, Apply;
    LiveTable(v, fat, g, r.parent);
    forall c | ROOT_CLUSTER < c < CLUSTER_MAP_SIZE && fat[c] == EMPTY_ENTRY && c !in AddedCells(fat, r)
      ensures Apply(v, WritePlan(v, fat, r).writes[..k])[c] == v[c]
    {
      CutElsewhere(v, fat, g, r, k, c);
    }
  }

  /** The clusters of the new chain hold the parts written so far, and else what they held. */
  lemma DataSoFar(v: Volume, fat: Fat, g: Shape, r: Request, k: nat)
    requires Inv(v, fat, g) && Adding(v, fat, g, r) && k < Linking(r) && k <= |WritePlan(v, fat, r).writes|
    ensures var vk, cells := Apply(v, WritePlan(v, fat, r).writes[..k]), AddedCells(fat, r);
            forall j :: 0 <= j < |cells| ==>
              Tabs(vk)[cells[j]] == if j < k then DecodeTable(FilePart(r.buf, r.bufferSize, j)) else Tabs(v)[cells[j]]
  {
    hide DecodeTable, WritePlan, Inv, Join, Picks, Admitted, FatOn, Apply, FilePart;
    var ws, cells := WritePlan(v, fat, r).writes, AddedCells(fat, r);
    WriteOrder(v, fat, g, r);
    FreshCells(v, fat, g, Needed(r));
    forall j | 0 <= j < |cells|
      ensures Apply(v, ws[..k])[cells[j]] == if j < k then FilePart(r.buf, r.bufferSize, j) else v[cells[j]]
    {
      if j < k { PrefixWritten(v, ws, k, j); } else { PrefixUntouched(v, ws, k, cells[j]); }
    }
  }
}
