/** Properties of the file system that follow from the invariant and the refinement. */
module Consequences {
  import opened Types
  import opened Layout
  import opened Chains
  import opened Operations
  import opened Structure
  import opened Preservation
  import opened Tree
  import opened Refinement

  // ----- round trip -----

  /** The data `write` drops: the last cluster of a file of several whole clusters is stored as zeros. */
  predicate LastClusterLost(size: nat) { size > CLUSTER_SIZE && size % CLUSTER_SIZE == 0 }

  /** A stored file gives its data back exactly when it is not a multiple of the cluster size beyond
      one cluster, or when the last cluster was zeros anyway. */
  lemma RoundTripExact(buf: seq<byte>, size: nat)
    requires Buffered(buf, size) && size > 0
    ensures |Stored(buf, size)| == CLUSTER_SIZE * ClustersNeeded(size) >= size
    ensures Stored(buf, size)[..size] == buf[..size] <==>
              !LastClusterLost(size) || buf[size - CLUSTER_SIZE..size] == ZERO_CLUSTER
    ensures LastClusterLost(size) ==>
              Stored(buf, size) == buf[..size - CLUSTER_SIZE] + ZERO_CLUSTER
  {
    if LastClusterLost(size) {
      var kept := size - CLUSTER_SIZE;
      assert Stored(buf, size) == buf[..kept] + ZERO_CLUSTER;
      assert buf[..size] == buf[..kept] + buf[kept..size];
      if Stored(buf, size)[..size] == buf[..size] {
        assert Stored(buf, size)[..size][kept..] == ZERO_CLUSTER && buf[..size][kept..] == buf[kept..size];
      }
    } else if size > CLUSTER_SIZE {
      var n := ClustersNeeded(size);
      assert CLUSTER_SIZE * (n - 1) + size % CLUSTER_SIZE == size;
    }
  }

  /** Reading a file just written: its stored form comes back, unless the directory's own header
      hides the name. */
  lemma WriteThenRead(v: Volume, fat: Fat, g: Shape, r: Request, q: Request)
    requires Inv(v, fat, g) && Adding(v, fat, g, r) && r.bufferSize > 0
    requires q.parent == r.parent && q.name == r.name && q.ext == r.ext
    ensures var p := WritePlan(v, fat, r); var v' := Apply(v, p.writes);
            var hidden := r.ext == NO_EXT && (r.name == DOTDOT || r.name == Abs(v, fat, g)[r.parent].name);
            && CanRead(v', q)
            && ReadPlan(v', q).code == (if hidden then 1 else if q.bufferSize < r.bufferSize then -1 else 0)
            && (!hidden && q.bufferSize >= r.bufferSize ==>
                  Content(v', ReadPlan(v', q).cells) == Stored(r.buf, r.bufferSize))
  {
    hide DecodeTable, Stored, WritePlan, Inv, DirectoryAt, ReadPlan, CanRead, Admitted, AddShape, Orderly;
    var p, g' := WritePlan(v, fat, r), WriteShape(v, fat, g, r);
    var v' := Apply(v, p.writes);
    WriteKeepsInv(v, fat, g, r);
    AdmittedRefines(v, fat, g, r);
    assert r.parent in Abs(v', p.fat, g');
    ReadRefines(v', p.fat, g', q);
  }

  /** From `write` to `read`: the first `size` bytes that come back are the ones written if and only if
      the size is not a multiple of the cluster size beyond one cluster, or the last cluster was zeros
      anyway. */
  lemma ReadBackExact(v: Volume, fat: Fat, g: Shape, r: Request, q: Request)
    requires Inv(v, fat, g) && Adding(v, fat, g, r) && r.bufferSize > 0
    requires q.parent == r.parent && q.name == r.name && q.ext == r.ext && q.bufferSize >= r.bufferSize
    requires r.ext == NO_EXT ==> r.name != DOTDOT && r.name != Abs(v, fat, g)[r.parent].name
    ensures var p := WritePlan(v, fat, r); var v' := Apply(v, p.writes);
            && p.code == 0 && CanRead(v', q) && ReadPlan(v', q).code == 0
            && |Content(v', ReadPlan(v', q).cells)| >= r.bufferSize
            && (Content(v', ReadPlan(v', q).cells)[..r.bufferSize] == r.buf[..r.bufferSize] <==>
                  !LastClusterLost(r.bufferSize) || r.buf[r.bufferSize - CLUSTER_SIZE..r.bufferSize] == ZERO_CLUSTER)
  {
    hide DecodeTable, Stored, FilePlan, FolderPlan, Inv, DirectoryAt, ReadPlan, CanRead;
    WriteThenRead(v, fat, g, r, q);
    RoundTripExact(r.buf, r.bufferSize);
  }

  // ----- non-interference -----

  /** The directory headers and entries a reader of `q` can see. */
  ghost predicate SameView(a: FileTree, a': FileTree, q: Request)
    requires q.parent in a && q.parent in a'
  {
    var k := Key(q.name, q.ext);
    && a'[q.parent].name == a[q.parent].name
    && (k in a'[q.parent].entries <==> k in a[q.parent].entries)
    && (k in a[q.parent].entries ==> a'[q.parent].entries[k] == a[q.parent].entries[k])
  }

  lemma SameRead(v: Volume, fat: Fat, g: Shape, v': Volume, fat': Fat, g': Shape, q: Request)
    requires Inv(v, fat, g) && Inv(v', fat', g') && q.parent in g.depth && q.parent in g'.depth && q.name != NO_NAME
    requires SameView(Abs(v, fat, g), Abs(v', fat', g'), q)
    ensures CanRead(v, q) && CanRead(v', q) && ReadPlan(v', q).code == ReadPlan(v, q).code
    ensures ReadPlan(v, q).code == 0 ==> Content(v', ReadPlan(v', q).cells) == Content(v, ReadPlan(v, q).cells)
  {
    hide DecodeTable, Inv, DirectoryAt, ReadPlan, CanRead, Content;
    ReadRefines(v, fat, g, q);
    ReadRefines(v', fat', g', q);
  }

  /** A write leaves the result of reading every other name unchanged, anywhere in the tree. */
  lemma WriteElsewhere(v: Volume, fat: Fat, g: Shape, r: Request, q: Request)
    requires Inv(v, fat, g) && r.parent in g.depth && Proper(r) && CanWrite(v, fat, r)
    requires q.parent in g.depth && q.name != NO_NAME && (q.parent, q.name, q.ext) != (r.parent, r.name, r.ext)
    ensures var v' := Apply(v, WritePlan(v, fat, r).writes);
            && CanRead(v, q) && CanRead(v', q) && ReadPlan(v', q).code == ReadPlan(v, q).code
            && (ReadPlan(v, q).code == 0 ==> Content(v', ReadPlan(v', q).cells) == Content(v, ReadPlan(v, q).cells))
  {
    hide DecodeTable, Inv, DirectoryAt, WritePlan, WriteShape, ReadPlan, CanRead, Content, CanWrite;
    DirsStay(v, fat, g, r);
    WriteKeepsInv(v, fat, g, r);
    WriteRefines(v, fat, g, r);
    SameRead(v, fat, g, Apply(v, WritePlan(v, fat, r).writes), WritePlan(v, fat, r).fat, WriteShape(v, fat, g, r), q);
  }

  /** A delete leaves the result of reading every other name of a surviving directory unchanged. */
  lemma DeleteElsewhere(v: Volume, fat: Fat, g: Shape, r: Request, q: Request)
    requires Inv(v, fat, g) && r.parent in g.depth && r.name != NO_NAME && CanDelete(v, fat, r)
    requires q.parent in DeleteShape(v, fat, g, r).depth && q.parent in g.depth
    requires q.name != NO_NAME && (q.parent, q.name, q.ext) != (r.parent, r.name, r.ext)
    ensures var v' := Apply(v, DeletePlan(v, fat, r).writes);
            && CanRead(v, q) && CanRead(v', q) && ReadPlan(v', q).code == ReadPlan(v, q).code
            && (ReadPlan(v, q).code == 0 ==> Content(v', ReadPlan(v', q).cells) == Content(v, ReadPlan(v, q).cells))
  {
    hide DecodeTable, Inv, DirectoryAt, DeletePlan, DeleteShape, ReadPlan, CanRead, Content, CanDelete;
    DeleteKeepsInv(v, fat, g, r);
    DeleteRefines(v, fat, g, r);
    var p := DeletePlan(v, fat, r);
    SameRead(v, fat, g, Apply(v, p.writes), p.fat, DeleteShape(v, fat, g, r), q);
  }

  /** No directory table but the parent's and the target's is written by a successful operation. */
  lemma TablesElsewhere(v: Volume, fat: Fat, g: Shape, r: Request, d: nat)
    requires Inv(v, fat, g) && d in g.depth && r.parent in g.depth && d != r.parent && r.name != NO_NAME
    ensures d < IMAGE_CLUSTERS && CanDelete(v, fat, r)
    ensures Proper(r) && CanWrite(v, fat, r) ==> Apply(v, WritePlan(v, fat, r).writes)[d] == v[d]
    ensures d in DeleteShape(v, fat, g, r).depth ==> Apply(v, DeletePlan(v, fat, r).writes)[d] == v[d]
  {
    hide DecodeTable, WritePlan, DeletePlan, Orderly, AddedEntry, FilePart, Clear, Chain;
    LiveTable(v, fat, g, d);
    if Proper(r) && CanWrite(v, fat, r) {
      if Admitted(Tab(v, r.parent), r) {
        WriteEffect(v, fat, g, r);
        FreshCells(v, fat, g, Needed(r));
      } else {
        RejectedWrite(v, fat, r);
      }
    }
    DeleteAllowed(v, fat, g, r);
    if Removing(v, g, r) {
      DeleteEffect(v, fat, g, r);
      if d in DeleteShape(v, fat, g, r).depth { NotFreed(v, fat, g, r, d); }
    } else {
      RejectedDelete(v, fat, r);
    }
  }

  lemma NotFreed(v: Volume, fat: Fat, g: Shape, r: Request, d: nat)
    requires Inv(v, fat, g) && Removing(v, g, r) && d in DeleteShape(v, fat, g, r).depth
    ensures d !in Chain(fat, Head(Tabs(v), RemovedPlace(v, r)))
  {
    hide DecodeTable, Chain;
    FoundIsPlace(v, fat, g, r);
    assert DirOk(Tabs(v), g, d);
    HeadApart(v, fat, g, r, EntryAt(Tabs(v), RemovedPlace(v, r)));
    assert EntryOk(Tabs(v), fat, g, RemovedPlace(v, r));
  }

  lemma RejectedWrite(v: Volume, fat: Fat, r: Request)
    requires CanWrite(v, fat, r) && !Admitted(Tab(v, r.parent), r)
    ensures WritePlan(v, fat, r).writes == [] && Apply(v, WritePlan(v, fat, r).writes) == v
  {
  }

  lemma RejectedDelete(v: Volume, fat: Fat, r: Request)
    requires CanDelete(v, fat, r) && DeletePlan(v, fat, r).code != 0
    ensures DeletePlan(v, fat, r).writes == [] && Apply(v, DeletePlan(v, fat, r).writes) == v
  {
  }

  // ----- conservation -----

  function FreeSet(fat: Fat, i: nat): set<nat> { set x: nat | i <= x < |fat| && fat[x] == EMPTY_ENTRY }

  lemma {:induction false} FreeCountIsCard(fat: Fat, i: nat)
    requires i <= |fat|
    ensures |FreeFrom(fat, i)| == |FreeSet(fat, i)|
    decreases |fat| - i
  {
    if i < |fat| {
      FreeCountIsCard(fat, i + 1);
      assert FreeSet(fat, i) == FreeSet(fat, i + 1) + if fat[i] == EMPTY_ENTRY then {i} else {};
    }
  }

  function CellSet(cells: seq<nat>): set<nat> { set x | x in cells }

  lemma {:induction false} CellsCard(cells: seq<nat>)
    requires Increasing(cells)
    ensures |CellSet(cells)| == |cells|
  {
    if cells != [] {
      var n := |cells| - 1;
      CellsCard(cells[..n]);
      assert cells == cells[..n] + [cells[n]];
      assert CellSet(cells) == CellSet(cells[..n]) + {cells[n]};
      assert cells[n] !in cells[..n];
    }
  }

  /** A successful write takes exactly the clusters the size calls for, one for a folder. */
  lemma WriteTakes(v: Volume, fat: Fat, g: Shape, r: Request)
    requires Inv(v, fat, g) && Adding(v, fat, g, r)
    ensures FreeCount(WritePlan(v, fat, r).fat) == FreeCount(fat) - Needed(r)
  {
    hide DecodeTable, Orderly, WritePlan, FreeFrom, Picks;
    WriteEffect(v, fat, g, r);
    FreshCells(v, fat, g, Needed(r));
    var cells, fat' := AddedCells(fat, r), WritePlan(v, fat, r).fat;
    var taken := CellSet(cells);
    CellsCard(cells);
    FreeCountIsCard(fat, 0);
    FreeCountIsCard(fat', 0);
    forall x | 0 <= x < |fat| ensures x in cells ==> fat'[x] != EMPTY_ENTRY ensures x !in cells ==> fat'[x] == fat[x] {
      if x in cells {
        var i :| 0 <= i < |cells| && cells[i] == x;
        JoinAt(fat, cells, i);
      } else {
        JoinOutside(fat, cells, x);
      }
    }
    assert FreeSet(fat', 0) == FreeSet(fat, 0) - taken && taken <= FreeSet(fat, 0);
  }

  /** A successful delete frees exactly the clusters of the entry. */
  lemma DeleteGives(v: Volume, fat: Fat, g: Shape, r: Request)
    requires Inv(v, fat, g) && Removing(v, g, r)
    ensures CanDelete(v, fat, r)
    ensures FreeCount(DeletePlan(v, fat, r).fat) == FreeCount(fat) + |Chain(fat, Head(Tabs(v), RemovedPlace(v, r)))|
  {
    hide DecodeTable, Orderly, DeletePlan, FreeFrom, Chain;
    DeleteEffect(v, fat, g, r);
    FoundIsPlace(v, fat, g, r);
    var cells, fat' := Chain(fat, Head(Tabs(v), RemovedPlace(v, r))), DeletePlan(v, fat, r).fat;
    ChainCells(fat, Head(Tabs(v), RemovedPlace(v, r)));
    ClearAt(fat, cells);
    CellsCard(cells);
    FreeCountIsCard(fat, 0);
    FreeCountIsCard(fat', 0);
    assert FreeSet(fat', 0) == FreeSet(fat, 0) + CellSet(cells) && FreeSet(fat, 0) !! CellSet(cells);
  }

  /** Deleting what was just written restores the allocation table cell for cell, the free count and
      the tree. */
  lemma DeleteUndoesWrite(v: Volume, fat: Fat, g: Shape, r: Request)
    requires Inv(v, fat, g) && Adding(v, fat, g, r)
    ensures var w := WritePlan(v, fat, r); var v1, g1 := Apply(v, w.writes), WriteShape(v, fat, g, r);
            && CanDelete(v1, w.fat, r)
            && DeletePlan(v1, w.fat, r).code == 0 && DeletePlan(v1, w.fat, r).fat == fat
            && Abs(Apply(v1, DeletePlan(v1, w.fat, r).writes), fat, DeleteShape(v1, w.fat, g1, r)) == Abs(v, fat, g)
  {
    hide DecodeTable, WritePlan, DeletePlan, Inv, DirectoryAt, Stored, WriteShape, DeleteShape, CanDelete, Admitted;
    var w := WritePlan(v, fat, r);
    var v1, g1 := Apply(v, w.writes), WriteShape(v, fat, g, r);
    DirsStay(v, fat, g, r);
    WriteKeepsInv(v, fat, g, r);
    AdmittedRefines(v, fat, g, r);
    DeleteKeepsInv(v1, w.fat, g1, r);
    DeleteRefines(v1, w.fat, g1, r);
    KeyAbsent(v, fat, g, r);
    UndoneTable(v, fat, g, r);
    var p := DeletePlan(v1, w.fat, r);
    UndoneTree(Abs(v, fat, g), r, AddedCells(fat, r)[0], Abs(v1, w.fat, g1), p.code,
               Abs(Apply(v1, p.writes), p.fat, DeleteShape(v1, w.fat, g1, r)));
  }

  lemma UndoneTree(a: FileTree, r: Request, c: nat, a1: FileTree, code: int, a2: FileTree)
    requires r.parent in a && Key(r.name, r.ext) !in a[r.parent].entries
    requires FreshFolder(a, r, c, a1)
          || exists n: Node :: n.FileNode? && a1 == a[r.parent := Plus(a[r.parent], Key(r.name, r.ext), n)]
    requires r.parent in a1 && DeleteSpec(a1, r, code, a2)
    ensures code == 0 && a2 == a
  {
    var k := Key(r.name, r.ext);
    assert Minus(a1[r.parent], k).entries == a[r.parent].entries;
    assert a2 == a;
  }

  lemma KeyAbsent(v: Volume, fat: Fat, g: Shape, r: Request)
    requires Inv(v, fat, g) && Adding(v, fat, g, r)
    ensures r.parent in g.depth && Key(r.name, r.ext) !in Abs(v, fat, g)[r.parent].entries
  {
    hide DecodeTable, EntriesFrom;
    LiveDirectory(v, fat, g, r.parent);
    FindKeyExact(v, fat, Tab(v, r.parent), r.name, r.ext);
  }

  lemma UndoneTable(v: Volume, fat: Fat, g: Shape, r: Request)
    requires Inv(v, fat, g) && Adding(v, fat, g, r)
    ensures var w := WritePlan(v, fat, r); var v1, g1 := Apply(v, w.writes), WriteShape(v, fat, g, r);
            && CanDelete(v1, w.fat, r)
            && (DeletePlan(v1, w.fat, r).code == 0 ==> DeletePlan(v1, w.fat, r).fat == fat)
  {
    hide DecodeTable, WritePlan, DeletePlan, Inv, NewTable, FilePart, WriteShape, Chain, Clear, Join, CanDelete;
    var w := WritePlan(v, fat, r);
    var v1, g1, cells := Apply(v, w.writes), WriteShape(v, fat, g, r), AddedCells(fat, r);
    WriteKeepsInv(v, fat, g, r);
    WriteEffect(v, fat, g, r);
    AddedEntryOk(v, fat, g, r);
    assert r.parent in g1.depth by { DirsStay(v, fat, g, r); }
    DeleteAllowed(v1, w.fat, g1, r);
    FoundAgain(Tab(v, r.parent), AddedPlace(v, r).slot, AddedEntry(fat, r), r);
    JoinChain(fat, cells, 0);
    assert cells[0..] == cells;
    ClearJoin(fat, cells);
    if DeletePlan(v1, w.fat, r).code == 0 { DeleteEffect(v1, w.fat, g1, r); }
  }

  lemma DirsStay(v: Volume, fat: Fat, g: Shape, r: Request)
    requires CanWrite(v, fat, r) && r.parent in g.depth
    ensures g.depth.Keys <= WriteShape(v, fat, g, r).depth.Keys
  {
  }

  lemma FoundAgain(t: Table, s: nat, e: Entry, r: Request)
    requires FIRST_SLOT <= s < TABLE_SIZE && FindKey(t, r.name, r.ext, FIRST_SLOT) == TABLE_SIZE
    requires Matches(e, r.name, r.ext)
    ensures FindKey(t[s := e], r.name, r.ext, FIRST_SLOT) == s
  {
    assert forall j :: FIRST_SLOT <= j < s ==> t[s := e][j] == t[j];
    assert t[s := e][s] == e;
  }
}
