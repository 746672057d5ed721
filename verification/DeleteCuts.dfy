/** Deletes cut off: the entry goes with the first write, and what can be left behind is a leak. */
module DeleteCuts {
  import opened Types
  import opened Layout
  import opened Chains
  import opened Operations
  import opened Structure
  import opened Preservation
  import opened Tree
  import opened Refinement
  import opened CrashSafety

  /** The writes of a removal: first the parent's table, then the freed clusters, then the allocation
      table, and for a file its last cluster once more. */
  ghost predicate RemovalOrder(p: Plan, parent: ClusterNo, cells: seq<nat>, folder: bool) {
    var n := if folder then 3 else |cells| + 2;
    && |cells| > 0 && |p.writes| == (if folder then n else n + 1)
    && p.writes[0] == Put(parent, EncodeTable(p.dir))
    && (forall j :: 0 < j < n - 1 ==> j <= |cells| && p.writes[j].cluster == cells[j - 1])
    && (forall j :: 0 < j < |p.writes| && j != n - 1 ==> p.writes[j].cluster in cells)
    && (forall j :: 0 < j < |p.writes| && j != n - 1 && !folder ==> p.writes[j].content == ZERO_CLUSTER)
    && p.writes[n - 1] == Put(FAT_CLUSTER, EncodeFat(p.fat))
    && (!folder ==> p.writes[n].cluster == cells[|cells| - 1])
  }

  /** What a removal writes and in which order. */
  lemma DeleteOrder(v: Volume, fat: Fat, g: Shape, r: Request)
    requires Inv(v, fat, g) && Removing(v, g, r)
    ensures CanDelete(v, fat, r) && InMap(RemovedCells(v, fat, r))
    ensures DeletePlan(v, fat, r).fat == Clear(fat, RemovedCells(v, fat, r))
    ensures var place := RemovedPlace(v, r);
            DeletePlan(v, fat, r).dir == Tab(v, r.parent)[place.slot := Blank(EntryAt(Tabs(v), place))]
    ensures RemovalOrder(DeletePlan(v, fat, r), r.parent, RemovedCells(v, fat, r),
            IsDir(EntryAt(Tabs(v), RemovedPlace(v, r))))
  {
    hide DecodeTable, EncodeTable, DecodeFat, EncodeFat, Inv, Clear, RemovalOrder, RemoveFolderPlan, RemoveFilePlan;
    DeleteAllowed(v, fat, g, r);
    FoundIsPlace(v, fat, g, r);
    var e, slot := EntryAt(Tabs(v), RemovedPlace(v, r)), RemovedPlace(v, r).slot;
    HeadApart(v, fat, g, r, e);
    if IsDir(e) {
      FolderOrder(v, fat, r.parent, Tab(v, r.parent), slot);
    } else {
      FileOrder(fat, r.parent, Tab(v, r.parent), slot);
    }
  }

  lemma FolderOrder(v: Volume, fat: Fat, parent: ClusterNo, t: Table, row: nat)
    requires row < TABLE_SIZE && FirstCluster(t[row]) < CLUSTER_MAP_SIZE
    ensures var p, c := RemoveFolderPlan(v, fat, parent, t, row), FirstCluster(t[row]);
            InMap([c]) && RemovalOrder(p, parent, [c], true) && p.fat == Clear(fat, [c])
            && p.dir == t[row := Wiped(t[row])]
  {
    hide DecodeTable, EncodeTable, EncodeFat, Clear;
    ClearOne(fat, FirstCluster(t[row]));
  }

  lemma FileOrder(fat: Fat, parent: ClusterNo, t: Table, row: nat)
    requires row < TABLE_SIZE && Terminated(fat, FirstCluster(t[row]))
    ensures var p, cells := RemoveFilePlan(fat, parent, t, row), Chain(fat, FirstCluster(t[row]));
            InMap(cells) && RemovalOrder(p, parent, cells, false) && p.fat == Clear(fat, cells)
            && p.dir == t[row := ZERO_ENTRY]
  {
    hide EncodeTable, EncodeFat, Clear, ZeroWrites;
    ChainCells(fat, FirstCluster(t[row]));
    var cells := Chain(fat, FirstCluster(t[row]));
    ZeroWritesCells(cells, |cells|);
  }

  lemma {:induction false} ZeroWritesCells(cells: seq<nat>, n: nat)
    requires InMap(cells) && n <= |cells|
    ensures forall j :: 0 <= j < n ==> ZeroWrites(cells, n)[j] == Put(cells[j], ZERO_CLUSTER)
  {
    if n > 0 { ZeroWritesCells(cells, n - 1); }
  }

  /** A disk on which only the removal is visible shows the tree after it, whatever the state of the
      freed clusters and of their cells. */
  lemma RemovalShown(v: Volume, fat: Fat, g: Shape, r: Request, vk: Volume, fat': Fat, blank: Entry)
    requires Inv(v, fat, g) && Removing(v, g, r) && TakenOut(v, fat, r, vk, fat', blank)
    ensures fat' == FatOn(vk) ==> Inv(vk, fat', DeleteShape(v, fat, g, r))
    ensures Abs(vk, fat', DeleteShape(v, fat, g, r))
         == Abs(v, fat, g)[r.parent := Minus(DirectoryAt(v, fat, g, r.parent),
                                             KeyOf(EntryAt(Tabs(v), RemovedPlace(v, r))))]
            - (if IsDir(EntryAt(Tabs(v), RemovedPlace(v, r))) then {Head(Tabs(v), RemovedPlace(v, r)) as nat} else {})
  {
    hide DecodeTable, Abs, DirectoryAt, NodeOf, Minus, KeyOf, Clear, FatOn;
    var tabs, p := Tabs(v), RemovedPlace(v, r);
    RemovalStep(v, fat, g, r, vk, fat', blank);
    RestKept(v, fat, g, r, vk, fat', blank);
    LiveDirectory(v, fat, g, r.parent);
    if fat' == FatOn(vk) { TakenOutInv(v, fat, g, r, vk, blank); }
    RemoveRefines(v, fat, g, vk, fat', p, blank);
  }

  lemma PrefixOfRemoval(v: Volume, fat: Fat, g: Shape, r: Request, k: nat)
    requires Inv(v, fat, g) && Removing(v, g, r) && CanDelete(v, fat, r)
    requires 0 < k <= |DeletePlan(v, fat, r).writes|
    ensures var vk := Apply(v, DeletePlan(v, fat, r).writes[..k]);
            TakenOut(v, fat, r, vk, FatOn(vk), Blank(EntryAt(Tabs(v), RemovedPlace(v, r))))
  {
    hide DecodeTable, EncodeTable, DecodeFat, EncodeFat, DeletePlan, Clear, Chain, Blank, Orderly;
    BlankDead(EntryAt(Tabs(v), RemovedPlace(v, r)));
    DeleteOrder(v, fat, g, r);
    DeleteEffect(v, fat, g, r);
    FoundIsPlace(v, fat, g, r);
    LiveTable(v, fat, g, r.parent);
    var p, place := DeletePlan(v, fat, r), RemovedPlace(v, r);
    var ws, cells, vk := p.writes, Chain(fat, Head(Tabs(v), place)), Apply(v, p.writes[..k]);
    HeadApart(v, fat, g, r, EntryAt(Tabs(v), place));
    PrefixWritten(v, ws, k, 0);
    TableOverlay(p.dir, ZERO_CLUSTER);
    FatAtDeleteCut(v, fat, g, r, k);
    forall d | 0 <= d < IMAGE_CLUSTERS && d !in cells && d != r.parent && d != FAT_CLUSTER ensures vk[d] == v[d] {
      PrefixUntouched(v, ws, k, d);
    }
  }

  /** Wherever a delete is cut off, the disk alone satisfies the driver's invariant and shows, headers
      included, exactly the tree from before when nothing is written yet, and otherwise exactly the tree
      from after. */
  lemma CrashDuringDelete(v: Volume, fat: Fat, g: Shape, r: Request, k: nat)
    requires Inv(v, fat, g) && r.parent in g.depth && r.name != NO_NAME && CanDelete(v, fat, r)
    requires k <= |DeletePlan(v, fat, r).writes|
    ensures var p, g' := DeletePlan(v, fat, r), CutDeleteShape(v, fat, g, r, k);
            var vk := Apply(v, p.writes[..k]);
            && Inv(vk, FatOn(vk), g')
            && Abs(vk, FatOn(vk), g')
               == if k > 0 then Abs(Apply(v, p.writes), p.fat, DeleteShape(v, fat, g, r)) else Abs(v, fat, g)
  {
    hide DecodeTable, FatOn, RemoveFilePlan, RemoveFolderPlan, Abs, Tabs, Inv, RemoveShape, Clear, Chain;
    var p := DeletePlan(v, fat, r);
    DeleteAllowed(v, fat, g, r);
    InvFat(v, fat, g);
    ApplyNone(v, p.writes);
    if Removing(v, g, r) && k > 0 {
      var blank := Blank(EntryAt(Tabs(v), RemovedPlace(v, r)));
      var vk := Apply(v, p.writes[..k]);
      PrefixOfRemoval(v, fat, g, r, k);
      RemovalShown(v, fat, g, r, vk, FatOn(vk), blank);
      RemovingRefines(v, fat, g, r);
    }
  }

  function CutDeleteShape(v: Volume, fat: Fat, g: Shape, r: Request, k: nat): Shape {
    if k > 0 then DeleteShape(v, fat, g, r) else g
  }

  lemma BlankDead(e: Entry)
    ensures !Live(Blank(e)) && Blank(e).name == NO_NAME
  {
  }

  /** The clusters of the entry `delete` removes. */
  function RemovedCells(v: Volume, fat: Fat, r: Request): seq<nat>
    requires Head(Tabs(v), RemovedPlace(v, r)) < CLUSTER_MAP_SIZE
  {
    Chain(fat, Head(Tabs(v), RemovedPlace(v, r)))
  }

  /** The writes of a removal up to and with that of the allocation table. */
  function Freeing(v: Volume, fat: Fat, r: Request): nat
    requires Head(Tabs(v), RemovedPlace(v, r)) < CLUSTER_MAP_SIZE
  {
    if IsDir(EntryAt(Tabs(v), RemovedPlace(v, r))) then 3 else |RemovedCells(v, fat, r)| + 2
  }

  /** The allocation table on disk changes with one write, from the old one to the new one. */
  lemma FatAtDeleteCut(v: Volume, fat: Fat, g: Shape, r: Request, k: nat)
    requires Inv(v, fat, g) && Removing(v, g, r) && CanDelete(v, fat, r) && k <= |DeletePlan(v, fat, r).writes|
    ensures InMap(RemovedCells(v, fat, r))
    ensures FatOn(Apply(v, DeletePlan(v, fat, r).writes[..k]))
         == if k < Freeing(v, fat, r) then fat else Clear(fat, RemovedCells(v, fat, r))
  {
    hide DecodeTable, EncodeTable, DecodeFat, EncodeFat, DeletePlan, Clear, Chain, Blank, Inv, Apply, EntryOk,
         FindKey, TableOk;
    DeleteOrder(v, fat, g, r);
    FoundIsPlace(v, fat, g, r);
    HeadApart(v, fat, g, r, EntryAt(Tabs(v), RemovedPlace(v, r)));
    LiveTable(v, fat, g, r.parent);
    var p, n := DeletePlan(v, fat, r), Freeing(v, fat, r);
    FatOverlay(p.fat, ZERO_CLUSTER);
    InvFat(v, fat, g);
    assert forall j :: 0 <= j < |p.writes| && j != n - 1 ==> p.writes[j].cluster != FAT_CLUSTER;
    if k < n { PrefixUntouched(v, p.writes, k, FAT_CLUSTER); } else { PrefixWritten(v, p.writes, k, n - 1); }
  }

  /** A delete cut off leaks, beyond what had leaked before, exactly while the parent is written and the
      allocation table is not, and then exactly the clusters of the removed entry. */
  lemma DeleteLeaks(v: Volume, fat: Fat, g: Shape, r: Request, k: nat, c: nat)
    requires Inv(v, fat, g) && Removing(v, g, r) && CanDelete(v, fat, r) && k <= |DeletePlan(v, fat, r).writes|
    ensures Leaked(FatOn(Apply(v, DeletePlan(v, fat, r).writes[..k])), CutDeleteShape(v, fat, g, r, k), c) <==>
              Leaked(fat, g, c) || (0 < k < Freeing(v, fat, r) && c in RemovedCells(v, fat, r))
  {
    hide DecodeTable, DeletePlan, Clear, Chain, Inv, FatOn, Apply;
    FatAtDeleteCut(v, fat, g, r, k);
    ClearAt(fat, RemovedCells(v, fat, r));
    FoundIsPlace(v, fat, g, r);
    ChainCells(fat, Head(Tabs(v), RemovedPlace(v, r)));
  }

  lemma DeadCluster()
    ensures AllDead(DecodeTable(ZERO_CLUSTER))
  {
    ZeroTable();
  }

  /** The clusters of a removed file are zeros by the time its cells are marked empty. */
  lemma ZeroedAtCut(v: Volume, fat: Fat, g: Shape, r: Request, k: nat, j: nat)
    requires Inv(v, fat, g) && Removing(v, g, r) && CanDelete(v, fat, r) && j < |RemovedCells(v, fat, r)|
    requires Freeing(v, fat, r) <= k < |DeletePlan(v, fat, r).writes|
    ensures InMap(RemovedCells(v, fat, r))
    ensures AllDead(Tab(Apply(v, DeletePlan(v, fat, r).writes[..k]), RemovedCells(v, fat, r)[j]))
  {
    hide DecodeTable, DeletePlan, Clear, Chain, Inv, Apply, Blank, AllDead;
    DeleteOrder(v, fat, g, r);
    FoundIsPlace(v, fat, g, r);
    ChainCells(fat, Head(Tabs(v), RemovedPlace(v, r)));
    var ws, cells := DeletePlan(v, fat, r).writes, RemovedCells(v, fat, r);
    assert k == |cells| + 2 && ws[j + 1].cluster == cells[j];
    PrefixWritten(v, ws, k, j + 1);
    DeadCluster();
  }

  /** A delete cut off never leaves an entry in a free cluster. */
  lemma DeleteLeavesDead(v: Volume, fat: Fat, g: Shape, r: Request, k: nat)
    requires Inv(v, fat, g) && Removing(v, g, r) && CanDelete(v, fat, r) && FreeDead(Tabs(v), fat)
    requires k <= |DeletePlan(v, fat, r).writes|
    ensures var vk := Apply(v, DeletePlan(v, fat, r).writes[..k]); FreeDead(Tabs(vk), FatOn(vk))
  {
    hide DecodeTable, DeletePlan, Clear, Chain, Inv, FatOn, Apply, Blank, AllDead, RemovalOrder;
    var p, cells, n := DeletePlan(v, fat, r), RemovedCells(v, fat, r), Freeing(v, fat, r);
    var vk := Apply(v, p.writes[..k]);
    FatAtDeleteCut(v, fat, g, r, k);
    DeleteOrder(v, fat, g, r);
    FoundIsPlace(v, fat, g, r);
    ChainCells(fat, Head(Tabs(v), RemovedPlace(v, r)));
    ClearAt(fat, cells);
    InvFat(v, fat, g);
    assert p.writes[..|p.writes|] == p.writes;
    if k == |p.writes| {
      DeleteKeepsTidy(v, fat, g, r);
      DeleteKeepsInv(v, fat, g, r);
      InvFat(vk, p.fat, DeleteShape(v, fat, g, r));
    } else {
      forall c | ROOT_CLUSTER < c < CLUSTER_MAP_SIZE && FatOn(vk)[c] == EMPTY_ENTRY ensures AllDead(Tabs(vk)[c]) {
        if c in cells {
          var j :| 0 <= j < |cells| && cells[j] == c;
          ZeroedAtCut(v, fat, g, r, k, j);
        } else {
          KeptAtCut(v, fat, g, r, k, c);
        }
      }
    }
  }

  lemma KeptAtCut(v: Volume, fat: Fat, g: Shape, r: Request, k: nat, c: nat)
    requires Inv(v, fat, g) && Removing(v, g, r) && CanDelete(v, fat, r) && k <= |DeletePlan(v, fat, r).writes|
    requires ROOT_CLUSTER < c < CLUSTER_MAP_SIZE && fat[c] == EMPTY_ENTRY && c !in RemovedCells(v, fat, r)
    ensures Tabs(Apply(v, DeletePlan(v, fat, r).writes[..k]))[c] == Tabs(v)[c]
  {
    hide DecodeTable, DeletePlan, Clear, Chain, Inv, FatOn, Apply, Blank;
    LiveTable(v, fat, g, r.parent);
    if k > 0 { PrefixOfRemoval(v, fat, g, r, k); } else { ApplyNone(v, DeletePlan(v, fat, r).writes); }
  }
}
