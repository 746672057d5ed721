/** Every operation keeps the driver's invariant. */
module Preservation {
  import opened Types
  import opened Layout
  import opened Chains
  import opened Operations
  import opened Structure

  /** What the file system expects of a request: a name, and no extension on a new folder. */
  predicate Proper(r: Request) {
    r.name != NO_NAME && (r.bufferSize == 0 ==> r.ext == NO_EXT)
  }

  // ----- effect of write lists -----

  lemma {:induction false} FileWritesEffect(v: Volume, buf: seq<byte>, size: nat, cells: seq<nat>, n: nat)
    requires Buffered(buf, size) && InMap(cells) && Increasing(cells) && n <= |cells| && n <= ClustersNeeded(size)
    ensures forall c :: 0 <= c < IMAGE_CLUSTERS && c !in cells[..n] ==>
            Apply(v, FileWrites(buf, size, cells, n))[c] == v[c]
    ensures forall k :: 0 <= k < n ==> Apply(v, FileWrites(buf, size, cells, n))[cells[k]] == FilePart(buf, size, k)
  {
    hide FilePart;
    if n > 0 {
      FileWritesEffect(v, buf, size, cells, n - 1);
      var ws := FileWrites(buf, size, cells, n);
      assert ws[..n - 1] == FileWrites(buf, size, cells, n - 1);
      assert cells[..n] == cells[..n - 1] + [cells[n - 1]];
    } else {
      assert cells[..0] == [];
    }
  }

  lemma {:induction false} ZeroWritesEffect(v: Volume, cells: seq<nat>, n: nat)
    requires InMap(cells) && n <= |cells|
    ensures forall c :: 0 <= c < IMAGE_CLUSTERS ==>
              Apply(v, ZeroWrites(cells, n))[c] == if c in cells[..n] then ZERO_CLUSTER else v[c]
  {
    if n > 0 {
      ZeroWritesEffect(v, cells, n - 1);
      var ws := ZeroWrites(cells, n);
      assert ws[..n - 1] == ZeroWrites(cells, n - 1);
      assert cells[..n] == cells[..n - 1] + [cells[n - 1]];
    } else {
      assert cells[..0] == [];
    }
  }

  lemma ApplyNone(v: Volume, ws: seq<Update>)
    ensures Apply(v, ws[..0]) == v
  {
  }

  lemma ApplyOne(v: Volume, a: Update)
    ensures Apply(v, [a]) == v[a.cluster := a.content]
  {
    assert [a][..0] == [];
    assert Apply(v, []) == v;
  }

  lemma ApplyTwo(v: Volume, ws: seq<Update>, a: Update, b: Update)
    ensures Apply(v, ws + [a, b]) == Apply(v, ws)[a.cluster := a.content][b.cluster := b.content]
  {
    var all := ws + [a, b];
    assert all[..|ws| + 1] == ws + [a] && (ws + [a])[..|ws|] == ws;
  }

  lemma ApplyThree(v: Volume, a: Update, b: Update, c: Update)
    ensures Apply(v, [a, b, c]) == v[a.cluster := a.content][b.cluster := b.content][c.cluster := c.content]
  {
    ApplyTwo(v, [a], b, c);
    assert [a, b, c] == [a] + [b, c];
    ApplyOne(v, a);
  }

  // ----- facts about live directories -----

  lemma LiveTable(v: Volume, fat: Fat, g: Shape, d: nat)
    requires Inv(v, fat, g) && d in g.depth
    ensures ROOT_CLUSTER <= d < CLUSTER_MAP_SIZE && fat[d] != EMPTY_ENTRY
    ensures IsDirTable(Tab(v, d)) && Tabs(v)[d] == Tab(v, d) && TableOk(Tabs(v), g, d)
  {
    hide DecodeTable;
    var tabs := Tabs(v);
    assert DirOk(tabs, g, d) && TableOk(tabs, g, d);
    if d != ROOT_CLUSTER {
      assert EntryOk(tabs, fat, g, g.owner[d]);
      ChainCells(fat, d);
    }
  }

  lemma FreshCells(v: Volume, fat: Fat, g: Shape, n: nat)
    requires Inv(v, fat, g) && 0 < n <= FreeCount(fat)
    ensures |Picks(fat, n)| == n && Free(fat, Picks(fat, n))
    ensures forall x :: x in Picks(fat, n) ==> ROOT_CLUSTER < x < CLUSTER_MAP_SIZE && x !in g.owner && x !in g.depth
  {
    hide DecodeTable;
    PicksFree(fat, n);
    forall x | x in Picks(fat, n) ensures ROOT_CLUSTER < x < CLUSTER_MAP_SIZE && x !in g.owner && x !in g.depth {
      if x in g.owner {
        assert Owned(Tabs(v), fat, g, x) && EntryOk(Tabs(v), fat, g, g.owner[x]);
        ChainCells(fat, Head(Tabs(v), g.owner[x]));
      }
      if x in g.depth { LiveTable(v, fat, g, x); }
    }
  }

  /** The place, entry and chain an admitted request adds. */
  function AddedPlace(v: Volume, r: Request): Place {
    Place(r.parent, FirstDead(Tab(v, r.parent), FIRST_SLOT))
  }

  function AddedCells(fat: Fat, r: Request): (cells: seq<nat>)
    requires Needed(r) <= FreeCount(fat)
    ensures |cells| == Needed(r) && InMap(cells)
  {
    PicksFree(fat, Needed(r));
    Picks(fat, Needed(r))
  }

  /** The cluster of a new folder. */
  function FolderCell(fat: Fat, r: Request): (c: ClusterNo)
    requires Needed(r) <= FreeCount(fat)
    ensures c == AddedCells(fat, r)[0]
  {
    AddedCells(fat, r)[0]
  }

  function AddedEntry(fat: Fat, r: Request): Entry
    requires Needed(r) <= FreeCount(fat)
  {
    if r.bufferSize == 0 then DirEntry(r.name, AddedCells(fat, r)[0])
    else MakeEntry(r.name, r.ext, 0, AddedCells(fat, r)[0], r.bufferSize)
  }

  function WriteShape(v: Volume, fat: Fat, g: Shape, r: Request): Shape
    requires CanWrite(v, fat, r) && r.parent in g.depth
  {
    if Admitted(Tab(v, r.parent), r) then
      AddShape(g, AddedPlace(v, r), AddedEntry(fat, r), AddedCells(fat, r))
    else g
  }

  predicate Adding(v: Volume, fat: Fat, g: Shape, r: Request) {
    r.parent in g.depth && Proper(r) && CanWrite(v, fat, r) && Admitted(Tab(v, r.parent), r)
  }

  /** The disk `v'` and table `fat'` after an admitted request: the new chain, the new entry in the
      parent, the contents of the new clusters, and nothing else above cluster 1. */
  ghost predicate Added(v: Volume, fat: Fat, r: Request, v': Volume, fat': Fat)
    requires Needed(r) <= FreeCount(fat) && Admitted(Tab(v, r.parent), r)
    requires r.bufferSize > 0 ==> Buffered(r.buf, r.bufferSize)
  {
    var cells := AddedCells(fat, r);
    && FatOn(v') == fat' == Join(fat, cells)
    && Tab(v', r.parent) == Tab(v, r.parent)[AddedPlace(v, r).slot := AddedEntry(fat, r)]
    && (r.bufferSize == 0 ==> Tab(v', cells[0]) == NewTable(r.name, cells[0], r.parent))
    && (r.bufferSize > 0 ==> forall k :: 0 <= k < Needed(r) ==> v'[cells[k]] == FilePart(r.buf, r.bufferSize, k))
    && (forall d :: 0 <= d < IMAGE_CLUSTERS && d !in cells && d != r.parent && d != FAT_CLUSTER ==> v'[d] == v[d])
  }

  lemma FolderEffect(v: Volume, fat: Fat, g: Shape, r: Request)
    requires Inv(v, fat, g) && Adding(v, fat, g, r) && r.bufferSize == 0
    ensures Added(v, fat, r, Apply(v, FolderPlan(v, fat, r).writes), FolderPlan(v, fat, r).fat)
  {
    hide DecodeTable, EncodeTable, DecodeFat, EncodeFat, NewTable, Apply, Inv, Picks, Join, DirEntry;
    FreshCells(v, fat, g, 1);
    LiveTable(v, fat, g, r.parent);
    var p, cells := FolderPlan(v, fat, r), AddedCells(fat, r);
    var c := cells[0];
    assert c in cells && cells == [c];
    var table := NewTable(r.name, c, r.parent);
    ApplyThree(v, Put(FAT_CLUSTER, EncodeFat(p.fat)), Put(r.parent, EncodeTable(p.dir)), Put(c, EncodeTable(table)));
    FatOverlay(p.fat, ZERO_CLUSTER);
    TableOverlay(p.dir, ZERO_CLUSTER);
    TableOverlay(table, ZERO_CLUSTER);
  }

  lemma FileEffect(v: Volume, fat: Fat, g: Shape, r: Request)
    requires Inv(v, fat, g) && Adding(v, fat, g, r) && r.bufferSize > 0
    ensures Added(v, fat, r, Apply(v, FilePlan(v, fat, r).writes), FilePlan(v, fat, r).fat)
  {
    hide DecodeTable, EncodeTable, DecodeFat, EncodeFat, FilePart, FileWrites, Inv, Join;
    FreshCells(v, fat, g, Needed(r));
    LiveTable(v, fat, g, r.parent);
    var p, cells, n := FilePlan(v, fat, r), AddedCells(fat, r), Needed(r);
    var ws := FileWrites(r.buf, r.bufferSize, cells, n);
    assert cells[..n] == cells;
    FileWritesEffect(v, r.buf, r.bufferSize, cells, n);
    ApplyTwo(v, ws, Put(FAT_CLUSTER, EncodeFat(p.fat)), Put(r.parent, EncodeTable(p.dir)));
    FatOverlay(p.fat, ZERO_CLUSTER);
    TableOverlay(p.dir, ZERO_CLUSTER);
    forall k | 0 <= k < n ensures Apply(v, p.writes)[cells[k]] == FilePart(r.buf, r.bufferSize, k) {
      assert cells[k] in cells;
    }
  }

  lemma AddedEntryOk(v: Volume, fat: Fat, g: Shape, r: Request)
    requires Inv(v, fat, g) && Adding(v, fat, g, r)
    ensures var e, cells := AddedEntry(fat, r), AddedCells(fat, r);
            && |cells| == Needed(r) && Free(fat, cells)
            && Live(e) && (IsDir(e) <==> r.bufferSize == 0) && FirstCluster(e) == cells[0]
            && WellFormed(Join(fat, cells), e) && Matches(e, r.name, r.ext)
  {
    FreshCells(v, fat, g, Needed(r));
    var cells := AddedCells(fat, r);
    JoinChain(fat, cells, 0);
    assert cells[0..] == cells;
  }

  lemma WriteEffect(v: Volume, fat: Fat, g: Shape, r: Request)
    requires Inv(v, fat, g) && Adding(v, fat, g, r)
    ensures Added(v, fat, r, Apply(v, WritePlan(v, fat, r).writes), WritePlan(v, fat, r).fat)
  {
    if r.bufferSize == 0 {
      FolderEffect(v, fat, g, r);
    } else {
      FileEffect(v, fat, g, r);
    }
  }

  /** An admitted write is the addition of one entry. */
  lemma WriteIsAdd(v: Volume, fat: Fat, g: Shape, r: Request, v': Volume, fat': Fat)
    requires Inv(v, fat, g) && Adding(v, fat, g, r) && Added(v, fat, r, v', fat')
    ensures Signed(v')
    ensures AddStep(Tabs(v), fat, g, Tabs(v'), fat', AddedPlace(v, r), AddedEntry(fat, r), AddedCells(fat, r))
    ensures AddClean(Tabs(v), fat, Tabs(v'), fat', AddedPlace(v, r), AddedEntry(fat, r), AddedCells(fat, r))
  {
    hide DecodeTable, NewTable, FilePart, Orderly, MakeEntry, TableOk;
    FreshCells(v, fat, g, Needed(r));
    LiveTable(v, fat, g, r.parent);
    AddedEntryOk(v, fat, g, r);
    if r.bufferSize == 0 { NewTableOk(r.name, AddedCells(fat, r)[0], r.parent); }
    assert v'[BOOT_SECTOR] == v[BOOT_SECTOR];
    forall d | d in g.depth ensures d < CLUSTER_MAP_SIZE && (d != r.parent ==> Tabs(v')[d] == Tabs(v)[d]) {
      LiveTable(v, fat, g, d);
    }
  }

  /** A write keeps the invariant, whatever its return code. */
  lemma WriteKeepsInv(v: Volume, fat: Fat, g: Shape, r: Request)
    requires Inv(v, fat, g) && r.parent in g.depth && Proper(r) && CanWrite(v, fat, r)
    ensures var p := WritePlan(v, fat, r);
            Inv(Apply(v, p.writes), p.fat, WriteShape(v, fat, g, r)) && (p.code == 0 <==> Admitted(Tab(v, r.parent), r))
  {
    hide DecodeTable, EncodeTable, DecodeFat, EncodeFat, FolderPlan, FilePlan;
    if Admitted(Tab(v, r.parent), r) {
      var p := WritePlan(v, fat, r);
      WriteEffect(v, fat, g, r);
      WriteIsAdd(v, fat, g, r, Apply(v, p.writes), p.fat);
      AddOrderly(Tabs(v), fat, g, Tabs(Apply(v, p.writes)), p.fat,
                 AddedPlace(v, r), AddedEntry(fat, r), AddedCells(fat, r));
    }
  }

  /** A write that runs to its end leaks nothing and leaves no entry in a free cluster. */
  lemma WriteKeepsTidy(v: Volume, fat: Fat, g: Shape, r: Request)
    requires Inv(v, fat, g) && r.parent in g.depth && Proper(r) && CanWrite(v, fat, r)
    ensures var p := WritePlan(v, fat, r);
            && (NoLeak(fat, g) ==> NoLeak(p.fat, WriteShape(v, fat, g, r)))
            && (FreeDead(Tabs(v), fat) ==> FreeDead(Tabs(Apply(v, p.writes)), p.fat))
  {
    hide DecodeTable, EncodeTable, DecodeFat, EncodeFat, FolderPlan, FilePlan, Inv, AddStep, AddClean, NoLeak,
         FreeDead;
    if Admitted(Tab(v, r.parent), r) {
      var p := WritePlan(v, fat, r);
      WriteEffect(v, fat, g, r);
      LiveTable(v, fat, g, r.parent);
      FreshCells(v, fat, g, Needed(r));
      WriteIsAdd(v, fat, g, r, Apply(v, p.writes), p.fat);
      AddTidy(Tabs(v), fat, g, Tabs(Apply(v, p.writes)), p.fat,
              AddedPlace(v, r), AddedEntry(fat, r), AddedCells(fat, r));
    }
  }

  // ----- delete -----

  function RemovedPlace(v: Volume, r: Request): Place {
    Place(r.parent, FindKey(Tab(v, r.parent), r.name, r.ext, FIRST_SLOT))
  }

  /** The request names an entry that `delete` will remove. */
  predicate Removing(v: Volume, g: Shape, r: Request) {
    var p := RemovedPlace(v, r);
    && r.parent in g.depth && r.name != NO_NAME && p.slot < TABLE_SIZE
    && Head(Tabs(v), p) < CLUSTER_MAP_SIZE
    && (IsDir(EntryAt(Tabs(v), p)) ==> NoChildren(Tabs(v)[Head(Tabs(v), p)]))
  }

  function DeleteShape(v: Volume, fat: Fat, g: Shape, r: Request): Shape {
    if Removing(v, g, r) then RemoveShape(Tabs(v), fat, g, RemovedPlace(v, r)) else g
  }

  /** A name found past slot 1 of a live directory is that of an entry in use. */
  lemma FoundIsPlace(v: Volume, fat: Fat, g: Shape, r: Request)
    requires Inv(v, fat, g) && r.parent in g.depth && r.name != NO_NAME
    requires RemovedPlace(v, r).slot < TABLE_SIZE
    ensures IsPlace(Tabs(v), g, RemovedPlace(v, r)) && r.parent < CLUSTER_MAP_SIZE
    ensures EntryAt(Tabs(v), RemovedPlace(v, r)) == Tab(v, r.parent)[RemovedPlace(v, r).slot]
    ensures Terminated(fat, Head(Tabs(v), RemovedPlace(v, r)))
    ensures EntryOk(Tabs(v), fat, g, RemovedPlace(v, r))
  {
    hide DecodeTable;
    LiveTable(v, fat, g, r.parent);
    assert IsPlace(Tabs(v), g, RemovedPlace(v, r));
    assert EntryOk(Tabs(v), fat, g, RemovedPlace(v, r));
  }

  /** `delete` never follows a chain out of the map. */
  lemma DeleteAllowed(v: Volume, fat: Fat, g: Shape, r: Request)
    requires Inv(v, fat, g) && r.parent in g.depth && r.name != NO_NAME
    ensures CanDelete(v, fat, r)
    ensures DeletePlan(v, fat, r).code == 0 <==> Removing(v, g, r)
  {
    hide DecodeTable, RemoveFolderPlan, RemoveFilePlan;
    LiveTable(v, fat, g, r.parent);
    if RemovedPlace(v, r).slot < TABLE_SIZE { FoundIsPlace(v, fat, g, r); }
  }

  /** The disk `v'` and table `fat'` after a removal: the chain cleared, the slot and the freed
      clusters dead, and nothing else above cluster 1. */
  ghost predicate Removed(v: Volume, fat: Fat, r: Request, v': Volume, fat': Fat, blank: Entry)
    requires RemovedPlace(v, r).slot < TABLE_SIZE && Head(Tabs(v), RemovedPlace(v, r)) < CLUSTER_MAP_SIZE
  {
    var p := RemovedPlace(v, r);
    var cells := Chain(fat, Head(Tabs(v), p));
    && InMap(cells) && FatOn(v') == fat' == Clear(fat, cells)
    && !Live(blank) && blank.name == NO_NAME
    && Tab(v', r.parent) == Tab(v, r.parent)[p.slot := blank]
    && (forall c :: c in cells && c < CLUSTER_MAP_SIZE ==> AllDead(Tab(v', c)))
    && (forall d :: 0 <= d < IMAGE_CLUSTERS && d !in cells && d != r.parent && d != FAT_CLUSTER ==> v'[d] == v[d])
  }

  function Blank(e: Entry): Entry { if IsDir(e) then Wiped(e) else ZERO_ENTRY }

  lemma RemoveFolderEffect(v: Volume, fat: Fat, g: Shape, r: Request, e: Entry)
    requires Inv(v, fat, g) && Removing(v, g, r) && e == EntryAt(Tabs(v), RemovedPlace(v, r)) && IsDir(e)
    ensures CanDelete(v, fat, r)
    ensures Removed(v, fat, r, Apply(v, DeletePlan(v, fat, r).writes), DeletePlan(v, fat, r).fat, Blank(e))
    ensures var c, t := FirstCluster(e), Tab(v, FirstCluster(e));
            Tab(Apply(v, DeletePlan(v, fat, r).writes), c) == t[0 := Wiped(t[0])][1 := Wiped(t[1])]
  {
    hide DecodeTable, EncodeTable, DecodeFat, EncodeFat, Apply, Inv;
    DeleteAllowed(v, fat, g, r);
    FoundIsPlace(v, fat, g, r);
    LiveTable(v, fat, g, r.parent);
    var p, c, target := DeletePlan(v, fat, r), FirstCluster(e), Tab(v, FirstCluster(e));
    var target' := target[0 := Wiped(target[0])][1 := Wiped(target[1])];
    HeadApart(v, fat, g, r, e);
    ApplyThree(v, Put(r.parent, EncodeTable(p.dir)), Put(c, EncodeTable(target')), Put(FAT_CLUSTER, EncodeFat(p.fat)));
    FatOverlay(p.fat, ZERO_CLUSTER);
    TableOverlay(p.dir, ZERO_CLUSTER);
    TableOverlay(target', ZERO_CLUSTER);
    ClearOne(fat, c);
  }

  /** The parent of an entry is not one of the clusters the entry owns. */
  lemma HeadApart(v: Volume, fat: Fat, g: Shape, r: Request, e: Entry)
    requires Inv(v, fat, g) && Removing(v, g, r) && e == EntryAt(Tabs(v), RemovedPlace(v, r))
    ensures Terminated(fat, FirstCluster(e)) && InMap(Chain(fat, FirstCluster(e)))
    ensures FirstCluster(e) in Chain(fat, FirstCluster(e))
    ensures IsDir(e) ==> Chain(fat, FirstCluster(e)) == [FirstCluster(e)]
    ensures forall c :: c in Chain(fat, FirstCluster(e)) ==> c > ROOT_CLUSTER && c != r.parent
  {
    hide DecodeTable;
    FoundIsPlace(v, fat, g, r);
    ChainCells(fat, FirstCluster(e));
    var tabs, p := Tabs(v), RemovedPlace(v, r);
    assert DirOk(tabs, g, r.parent);
    assert EntryOk(tabs, fat, g, p);
  }

  lemma RemoveFileEffect(v: Volume, fat: Fat, g: Shape, r: Request, e: Entry)
    requires Inv(v, fat, g) && Removing(v, g, r) && e == EntryAt(Tabs(v), RemovedPlace(v, r)) && !IsDir(e)
    ensures CanDelete(v, fat, r)
    ensures Removed(v, fat, r, Apply(v, DeletePlan(v, fat, r).writes), DeletePlan(v, fat, r).fat, Blank(e))
    ensures forall c :: c in Chain(fat, FirstCluster(e)) && c < CLUSTER_MAP_SIZE ==>
              Apply(v, DeletePlan(v, fat, r).writes)[c] == ZERO_CLUSTER
  {
    hide DecodeTable, EncodeTable, DecodeFat, EncodeFat, Inv, ZeroWrites, Clear, Chain;
    DeleteAllowed(v, fat, g, r);
    FoundIsPlace(v, fat, g, r);
    LiveTable(v, fat, g, r.parent);
    HeadApart(v, fat, g, r, e);
    var p, cells := DeletePlan(v, fat, r), Chain(fat, FirstCluster(e));
    var head, zeros, last := [Put(r.parent, EncodeTable(p.dir))], ZeroWrites(cells, |cells|), cells[|cells| - 1];
    var v1 := Apply(v, head);
    ApplyOne(v, head[0]);
    ApplyTwo(v, head + zeros, Put(FAT_CLUSTER, EncodeFat(p.fat)), Put(last, ZERO_CLUSTER));
    ApplyConcat(v, head, zeros);
    ZeroWritesEffect(v1, cells, |cells|);
    assert cells[..|cells|] == cells && last in cells;
    FatOverlay(p.fat, ZERO_CLUSTER);
    TableOverlay(p.dir, ZERO_CLUSTER);
    ZeroTable();
  }

  lemma DeleteEffect(v: Volume, fat: Fat, g: Shape, r: Request)
    requires Inv(v, fat, g) && Removing(v, g, r)
    ensures CanDelete(v, fat, r)
    ensures Removed(v, fat, r, Apply(v, DeletePlan(v, fat, r).writes), DeletePlan(v, fat, r).fat,
                    Blank(EntryAt(Tabs(v), RemovedPlace(v, r))))
  {
    var e := EntryAt(Tabs(v), RemovedPlace(v, r));
    if IsDir(e) {
      RemoveFolderEffect(v, fat, g, r, e);
    } else {
      RemoveFileEffect(v, fat, g, r, e);
    }
  }

  /** The entry is out of the parent, whatever has become of the clusters and cells it owned. */
  ghost predicate TakenOut(v: Volume, fat: Fat, r: Request, v': Volume, fat': Fat, blank: Entry)
    requires RemovedPlace(v, r).slot < TABLE_SIZE && Head(Tabs(v), RemovedPlace(v, r)) < CLUSTER_MAP_SIZE
  {
    var p := RemovedPlace(v, r);
    var cells := Chain(fat, Head(Tabs(v), p));
    && InMap(cells) && (fat' == fat || fat' == Clear(fat, cells)) && !Live(blank) && blank.name == NO_NAME
    && Tab(v', r.parent) == Tab(v, r.parent)[p.slot := blank]
    && (forall d :: 0 <= d < IMAGE_CLUSTERS && d !in cells && d != r.parent && d != FAT_CLUSTER ==> v'[d] == v[d])
  }

  lemma RemovalStep(v: Volume, fat: Fat, g: Shape, r: Request, v': Volume, fat': Fat, blank: Entry)
    requires Inv(v, fat, g) && Removing(v, g, r) && TakenOut(v, fat, r, v', fat', blank)
    ensures RemoveStep(Tabs(v), fat, g, Tabs(v'), fat', RemovedPlace(v, r), blank)
  {
    hide DecodeTable, Chain, Clear, FindKey, NoChildren, KeysUnique, DeadNameless, HeadOk, EntriesWellFormed,
         OwnersTrue, Reserved, Signed;
    FoundIsPlace(v, fat, g, r);
    var tabs, p := Tabs(v), RemovedPlace(v, r);
    LiveTable(v, fat, g, r.parent);
    HeadApart(v, fat, g, r, EntryAt(tabs, p));
    var g', cells := RemoveShape(tabs, fat, g, p), Chain(fat, Head(tabs, p));
    ClearAt(fat, cells);
    forall d | d in g'.depth && d != r.parent ensures d < CLUSTER_MAP_SIZE && Tabs(v')[d] == tabs[d] {
      assert DirOk(tabs, g, d);
      assert EntryOk(tabs, fat, g, p);
    }
  }

  lemma DeleteIsRemove(v: Volume, fat: Fat, g: Shape, r: Request, v': Volume, fat': Fat, blank: Entry)
    requires Inv(v, fat, g) && Removing(v, g, r) && Removed(v, fat, r, v', fat', blank)
    ensures Signed(v') && TakenOut(v, fat, r, v', fat', blank)
    ensures RemoveStep(Tabs(v), fat, g, Tabs(v'), fat', RemovedPlace(v, r), blank)
    ensures RemoveClean(Tabs(v), fat, Tabs(v'), fat', RemovedPlace(v, r), blank)
  {
    hide DecodeTable, Chain, Clear, FindKey, NoChildren, AllDead, Orderly, RemoveStep, RemoveClean;
    FoundIsPlace(v, fat, g, r);
    LiveTable(v, fat, g, r.parent);
    HeadApart(v, fat, g, r, EntryAt(Tabs(v), RemovedPlace(v, r)));
    assert v'[BOOT_SECTOR] == v[BOOT_SECTOR];
    RemovalStep(v, fat, g, r, v', fat', blank);
    RemovalClean(v, fat, g, r, v', fat', blank);
  }

  lemma RemovalClean(v: Volume, fat: Fat, g: Shape, r: Request, v': Volume, fat': Fat, blank: Entry)
    requires Inv(v, fat, g) && Removing(v, g, r) && Removed(v, fat, r, v', fat', blank)
    ensures RemoveClean(Tabs(v), fat, Tabs(v'), fat', RemovedPlace(v, r), blank)
  {
    hide DecodeTable, Chain, Clear, FindKey, NoChildren, AllDead, Orderly, EntryOk, IsDirTable, TableOk;
    LiveTable(v, fat, g, r.parent);
  }

  /** Once the entry is out of its directory the invariant holds for the smaller tree. */
  lemma TakenOutInv(v: Volume, fat: Fat, g: Shape, r: Request, v': Volume, blank: Entry)
    requires Inv(v, fat, g) && Removing(v, g, r) && TakenOut(v, fat, r, v', FatOn(v'), blank)
    ensures Inv(v', FatOn(v'), DeleteShape(v, fat, g, r))
  {
    hide DecodeTable, Chain, Clear, FindKey, NoChildren, Orderly, RemoveStep, RemoveShape, FatOn;
    var tabs, p := Tabs(v), RemovedPlace(v, r);
    FoundIsPlace(v, fat, g, r);
    LiveTable(v, fat, g, r.parent);
    HeadApart(v, fat, g, r, EntryAt(tabs, p));
    var cells := Chain(fat, Head(tabs, p));
    ClearAt(fat, cells);
    assert v'[BOOT_SECTOR] == v[BOOT_SECTOR];
    RemovalStep(v, fat, g, r, v', FatOn(v'), blank);
    InvReserved(v, fat, g);
    RemoveOrderly(tabs, fat, g, Tabs(v'), FatOn(v'), p, blank);
  }

  lemma InvReserved(v: Volume, fat: Fat, g: Shape)
    requires Inv(v, fat, g)
    ensures Reserved(fat)
  {
  }

  /** A delete keeps the invariant, whatever its return code. */
  lemma DeleteKeepsInv(v: Volume, fat: Fat, g: Shape, r: Request)
    requires Inv(v, fat, g) && r.parent in g.depth && r.name != NO_NAME
    ensures CanDelete(v, fat, r)
    ensures Inv(Apply(v, DeletePlan(v, fat, r).writes), DeletePlan(v, fat, r).fat, DeleteShape(v, fat, g, r))
  {
    hide DecodeTable, EncodeTable, DecodeFat, EncodeFat, RemoveFolderPlan, RemoveFilePlan, TakenOut, RemoveStep,
         RemoveClean, RemoveShape, Orderly, Chain, Clear;
    DeleteAllowed(v, fat, g, r);
    if Removing(v, g, r) {
      var p, place := DeletePlan(v, fat, r), RemovedPlace(v, r);
      var blank, v' := Blank(EntryAt(Tabs(v), place)), Apply(v, p.writes);
      DeleteEffect(v, fat, g, r);
      DeleteIsRemove(v, fat, g, r, v', p.fat, blank);
      TakenOutInv(v, fat, g, r, v', blank);
    }
  }

  /** A delete that runs to its end leaks nothing and leaves no entry in a free cluster. */
  lemma DeleteKeepsTidy(v: Volume, fat: Fat, g: Shape, r: Request)
    requires Inv(v, fat, g) && r.parent in g.depth && r.name != NO_NAME
    ensures CanDelete(v, fat, r)
    ensures var p := DeletePlan(v, fat, r);
            && (NoLeak(fat, g) ==> NoLeak(p.fat, DeleteShape(v, fat, g, r)))
            && (FreeDead(Tabs(v), fat) ==> FreeDead(Tabs(Apply(v, p.writes)), p.fat))
  {
    hide DecodeTable, EncodeTable, DecodeFat, EncodeFat, RemoveFolderPlan, RemoveFilePlan, TakenOut, RemoveStep,
         RemoveClean, RemoveShape, Inv, Chain, Clear, NoLeak, FreeDead;
    DeleteAllowed(v, fat, g, r);
    if Removing(v, g, r) {
      var p, place := DeletePlan(v, fat, r), RemovedPlace(v, r);
      var blank, v' := Blank(EntryAt(Tabs(v), place)), Apply(v, p.writes);
      DeleteEffect(v, fat, g, r);
      DeleteIsRemove(v, fat, g, r, v', p.fat, blank);
      RemoveTidy(Tabs(v), fat, g, Tabs(v'), p.fat, place, blank);
    }
  }
}
