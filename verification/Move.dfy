/** The shell's `mv`: a rename or a move into a folder, built from read, delete and write. */
module Move {
  import opened Types
  import opened Layout
  import opened Chains
  import opened Operations
  import opened Structure
  import opened Preservation
  import opened Tree
  import opened Refinement
  import opened Consequences
  import opened Fat32
  import opened BlockDevice
  import opened Find
  import opened Shell

  /** `mv` copies through a buffer of one cluster and records that as the size. */
  const MOVED_SIZE: u32 := 2048

  /** The directory's own header hides the name from `read`. */
  predicate Hidden(d: Directory, k: Key) { k.ext == NO_EXT && (k.name == d.name || k.name == DOTDOT) }

  /** What the buffer holds when the new file is written: the cluster of a file that has only one and
      that `read` can see, and zeros otherwise. */
  function Carried(d: Directory, k: Key): seq<byte> {
    if k in d.entries && d.entries[k].FileNode? && !Hidden(d, k) && d.entries[k].size <= CLUSTER_SIZE then
      d.entries[k].bytes
    else Zeros(CLUSTER_SIZE)
  }

  /** The tree after a delete of `k` in `d`, whether it succeeds or not. */
  function Lifted(a: FileTree, d: nat, k: Key): FileTree
    requires d in a
  {
    if k !in a[d].entries then a
    else match a[d].entries[k]
      case FileNode(_, _) => a[d := Minus(a[d], k)]
      case DirNode(c) => if c in a && a[c].entries != map[] then a else a[d := Minus(a[d], k)] - {c}
  }

  /** The tree after a write of one cluster as `k` in `c`, whether it succeeds or not. */
  function Dropped(a: FileTree, c: nat, k: Key, bytes: seq<byte>): FileTree {
    if Takes(a, c, k) then a[c := Plus(a[c], k, FileNode(CLUSTER_SIZE, bytes))] else a
  }

  /** The directory `c` is there, has room, and no entry `k`. */
  predicate Takes(a: FileTree, c: nat, k: Key) { c in a && |a[c].entries| < CAPACITY && k !in a[c].entries }

  /** The tree after `mv`. Whatever extension the first argument has, the requests carry none. */
  function MvTree(a: FileTree, d: nat, arg1: Arg, arg2: Arg): FileTree
    requires d in a
  {
    var k, k2 := Key(arg1.info, NO_EXT), Key(arg2.info, arg2.ext);
    if k2 !in a[d].entries then Dropped(Lifted(a, d, k), d, Key(arg2.info, NO_EXT), Carried(a[d], k))
    else match a[d].entries[k2]
      case DirNode(c) => Dropped(Lifted(a, d, k), c, k, Carried(a[d], k))
      case FileNode(_, _) => a
  }

  /** The final write of `mv` gets through, or there is none. */
  predicate Written(a: FileTree, d: nat, arg1: Arg, arg2: Arg)
    requires d in a
  {
    var k, k2 := Key(arg1.info, NO_EXT), Key(arg2.info, arg2.ext);
    if k2 !in a[d].entries then Takes(Lifted(a, d, k), d, Key(arg2.info, NO_EXT))
    else match a[d].entries[k2]
      case DirNode(c) => Takes(Lifted(a, d, k), c, k)
      case FileNode(_, _) => true
  }

  /** Apart from the keys in `keys`, the two directories have the same header and entries. */
  ghost predicate SameBut(a: Directory, b: Directory, keys: set<Key>) {
    && b.name == a.name && b.parent == a.parent
    && forall k :: k !in keys ==>
         (k in b.entries <==> k in a.entries) && (k in a.entries ==> b.entries[k] == a.entries[k])
  }

  /** A rename of a file, to a name that is not there, always gets through its final write, even in a full
      directory. It takes the old name away and gives the carried cluster the new one; every other entry and
      directory survives. */
  lemma RenameTree(a: FileTree, d: nat, arg1: Arg, arg2: Arg)
    requires d in a && |a[d].entries| <= CAPACITY
    requires Key(arg1.info, NO_EXT) in a[d].entries && a[d].entries[Key(arg1.info, NO_EXT)].FileNode?
    requires Key(arg2.info, arg2.ext) !in a[d].entries && Key(arg2.info, NO_EXT) !in a[d].entries
    ensures var a', k, k' := MvTree(a, d, arg1, arg2), Key(arg1.info, NO_EXT), Key(arg2.info, NO_EXT);
            && Takes(Lifted(a, d, k), d, k')
            && a'.Keys == a.Keys && (forall c :: c in a && c != d ==> a'[c] == a[c])
            && k !in a'[d].entries && k' in a'[d].entries
            && a'[d].entries[k'] == FileNode(CLUSTER_SIZE, Carried(a[d], k))
            && SameBut(a[d], a'[d], {k, k'}) && |a'[d].entries| == |a[d].entries|
  {
    var k, k' := Key(arg1.info, NO_EXT), Key(arg2.info, NO_EXT);
    LiftedRoom(a, d, k, k');
    var rest := Minus(a[d], k);
    assert rest.entries.Keys == a[d].entries.Keys - {k};
    assert MvTree(a, d, arg1, arg2)[d].entries.Keys == rest.entries.Keys + {k'};
    KeysCount(rest.entries);
    KeysCount(a[d].entries);
    KeysCount(MvTree(a, d, arg1, arg2)[d].entries);
  }

  lemma KeysCount(m: map<Key, Node>)
    ensures |m| == |m.Keys|
  {
  }

  /** A move of a file into another folder takes it out of its directory in any case. It gets through its
      final write, and puts the carried cluster into the folder, exactly when that has room and no entry of
      the name; otherwise the file is gone. Every other entry and directory survives. */
  lemma MoveTree(a: FileTree, d: nat, arg1: Arg, arg2: Arg)
    requires d in a && Key(arg1.info, NO_EXT) in a[d].entries && a[d].entries[Key(arg1.info, NO_EXT)].FileNode?
    requires Key(arg2.info, arg2.ext) in a[d].entries && a[d].entries[Key(arg2.info, arg2.ext)].DirNode?
    requires a[d].entries[Key(arg2.info, arg2.ext)].dir in a && a[d].entries[Key(arg2.info, arg2.ext)].dir != d
    ensures var a', k, c := MvTree(a, d, arg1, arg2), Key(arg1.info, NO_EXT),
            a[d].entries[Key(arg2.info, arg2.ext)].dir;
            && (Takes(Lifted(a, d, k), c, k) <==> |a[c].entries| < CAPACITY && k !in a[c].entries)
            && a'.Keys == a.Keys && (forall e :: e in a && e != d && e != c ==> a'[e] == a[e])
            && k !in a'[d].entries && SameBut(a[d], a'[d], {k})
            && (if Takes(a, c, k) then
                  && SameBut(a[c], a'[c], {k}) && k in a'[c].entries
                  && a'[c].entries[k] == FileNode(CLUSTER_SIZE, Carried(a[d], k))
                else a'[c] == a[c])
  {
  }

  lemma DeleteLifts(a: FileTree, r: Request, code: int, a': FileTree)
    requires r.parent in a && DeleteSpec(a, r, code, a')
    ensures a' == Lifted(a, r.parent, Key(r.name, r.ext))
  {
  }

  lemma WriteDrops(a: FileTree, r: Request, code: int, a': FileTree)
    requires r.parent in a && r.bufferSize == MOVED_SIZE && Buffered(r.buf, MOVED_SIZE) && WriteSpec(a, r, code, a')
    ensures a' == Dropped(a, r.parent, Key(r.name, r.ext), r.buf[..CLUSTER_SIZE])
  {
  }

  /** A buffer of `n` clusters filled with zeros, byte by byte. */
  method ZeroBuffer(n: nat) returns (buf: array<byte>)
    ensures fresh(buf) && buf[..] == Zeros(CLUSTER_SIZE * n)
  {
    buf := new byte[CLUSTER_SIZE * n];
    for i := 0 to n
      invariant forall j :: 0 <= j < CLUSTER_SIZE * i ==> buf[j] == 0
    {
      for j := 0 to CLUSTER_SIZE
        invariant forall m :: 0 <= m < CLUSTER_SIZE * i + j ==> buf[m] == 0
      {
        buf[CLUSTER_SIZE * i + j] := 0;
      }
    }
  }

  /** The row of an argument in the loaded table, or 64. */
  method EntryRow(t: Table, arg: Arg) returns (row: nat)
    ensures row == FindKey(t, arg.info, arg.ext, FIRST_SLOT)
  {
    row := FIRST_SLOT;
    while row < TABLE_SIZE && !(t[row].name == arg.info && t[row].ext == arg.ext)
      invariant FIRST_SLOT <= row <= TABLE_SIZE
      invariant FindKey(t, arg.info, arg.ext, FIRST_SLOT) == FindKey(t, arg.info, arg.ext, row)
    {
      row := row + 1;
    }
  }

  /** What the buffer holds after the read. */
  lemma BufferAfterRead(v: Volume, fat: Fat, g: Shape, r: Request, n: nat)
    requires Inv(v, fat, g) && r.parent in g.depth && r.name != NO_NAME && r.bufferSize == MOVED_SIZE
    requires n >= 1
    ensures CanRead(v, r) && |Content(v, ReadPlan(v, r).cells)| <= CLUSTER_SIZE
    ensures Splice(Zeros(CLUSTER_SIZE * n), 0, Content(v, ReadPlan(v, r).cells))[..CLUSTER_SIZE]
         == Carried(Abs(v, fat, g)[r.parent], Key(r.name, r.ext))
  {
    hide DecodeTable, Inv, DirectoryAt;
    ReadRefines(v, fat, g, r);
    ReadFits(v, r);
    ReadLength(v, r);
    var c := Content(v, ReadPlan(v, r).cells);
    assert ClustersNeeded(MOVED_SIZE) == 1;
    if ReadPlan(v, r).code == 0 {
      assert Splice(Zeros(CLUSTER_SIZE * n), 0, c)[..CLUSTER_SIZE] == c;
    } else {
      assert c == [];
      assert Splice(Zeros(CLUSTER_SIZE * n), 0, c)[..CLUSTER_SIZE] == Zeros(CLUSTER_SIZE);
    }
  }

  lemma ReadLength(v: Volume, r: Request)
    requires CanRead(v, r)
    ensures ReadPlan(v, r).code == 0 <==> ReadPlan(v, r).cells != []
  {
  }

  /** A delete of a file frees as many clusters as its size calls for. */
  lemma DeleteFrees(v: Volume, fat: Fat, g: Shape, r: Request)
    requires Inv(v, fat, g) && Removing(v, g, r) && Abs(v, fat, g)[r.parent].entries.Keys >= {Key(r.name, r.ext)}
    requires Abs(v, fat, g)[r.parent].entries[Key(r.name, r.ext)].FileNode?
    ensures CanDelete(v, fat, r)
    ensures FreeCount(DeletePlan(v, fat, r).fat)
         == FreeCount(fat) + ClustersNeeded(Abs(v, fat, g)[r.parent].entries[Key(r.name, r.ext)].size)
  {
    hide DecodeTable, DeletePlan, EntriesFrom, FreeCount, Inv;
    RowInTree(v, fat, g, r.parent, Arg(r.name, r.ext));
    DeleteGives(v, fat, g, r);
    FoundIsPlace(v, fat, g, r);
    TreeShape.FileChain(v, fat, g, RemovedPlace(v, r));
  }

  /** What the loaded table says of an argument, in terms of the tree. */
  lemma RowInTree(v: Volume, fat: Fat, g: Shape, d: nat, arg: Arg)
    requires Inv(v, fat, g) && d in g.depth && arg.info != NO_NAME
    ensures d < CLUSTER_MAP_SIZE && FirstCluster(Tab(v, d)[0]) == d && |Abs(v, fat, g)[d].entries| <= CAPACITY
    ensures var row := FindKey(Tab(v, d), arg.info, arg.ext, FIRST_SLOT);
            var k, m := Key(arg.info, arg.ext), Abs(v, fat, g)[d].entries;
            && (row < TABLE_SIZE <==> k in m)
            && (row < TABLE_SIZE ==>
                  && (m[k].DirNode? <==> IsDir(Tab(v, d)[row]))
                  && (m[k].DirNode? ==> m[k].dir == FirstCluster(Tab(v, d)[row]) && m[k].dir != d)
                  && (m[k].DirNode? ==> m[k].dir in g.depth && m[k].dir < CLUSTER_MAP_SIZE)
                  && (m[k].FileNode? ==> m[k].size == Tab(v, d)[row].filesize > 0))
  {
    hide DecodeTable, EntriesFrom;
    LiveDirectory(v, fat, g, d);
    var t := Tab(v, d);
    FindKeyExact(v, fat, t, arg.info, arg.ext);
    EntriesExact(v, fat, t, FIRST_SLOT);
    LiveCountFull(t, FIRST_SLOT);
    var row := FindKey(t, arg.info, arg.ext, FIRST_SLOT);
    if row < TABLE_SIZE {
      var p := Place(d, row);
      assert EntryAt(Tabs(v), p) == t[row] && IsPlace(Tabs(v), g, p);
      assert WellFormed(fat, EntryAt(Tabs(v), p));
      if IsDir(t[row]) { TreeShape.ChildOf(Tabs(v), fat, g, p); }
    }
  }

  /** A rename keeps the stored bytes exactly for a file of one cluster that `read` can see, or one
      that held zeros already. */
  lemma RenameKeepsBytes(v: Volume, fat: Fat, g: Shape, d: nat, k: Key)
    requires Inv(v, fat, g) && d in g.depth && k.name != NO_NAME && k in Abs(v, fat, g)[d].entries
    requires Abs(v, fat, g)[d].entries[k].FileNode?
    ensures var file := Abs(v, fat, g)[d].entries[k];
            Carried(Abs(v, fat, g)[d], k) == file.bytes <==>
              file.size <= CLUSTER_SIZE && (!Hidden(Abs(v, fat, g)[d], k) || file.bytes == ZERO_CLUSTER)
  {
    hide DecodeTable, EntriesFrom, Inv;
    RowInTree(v, fat, g, d, Arg(k.name, k.ext));
    LiveDirectory(v, fat, g, d);
    FindKeyExact(v, fat, Tab(v, d), k.name, k.ext);
    LiveEntry(v, fat, g, d, FindKey(Tab(v, d), k.name, k.ext, FIRST_SLOT));
    var file := Abs(v, fat, g)[d].entries[k];
    assert |file.bytes| == CLUSTER_SIZE * ClustersNeeded(file.size);
  }

  /** The file `r` names, if it is one, is of the tree. */
  predicate FileThere(a: FileTree, r: Request)
    requires r.parent in a
  {
    Key(r.name, r.ext) in a[r.parent].entries && a[r.parent].entries[Key(r.name, r.ext)].FileNode?
  }

  /** The clusters that file takes. */
  function FileClusters(a: FileTree, r: Request): nat
    requires r.parent in a && FileThere(a, r)
  {
    ClustersNeeded(a[r.parent].entries[Key(r.name, r.ext)].size)
  }

  /** Clusters a delete of `r` gives back. */
  lemma LiftFrees(v: Volume, fat: Fat, g: Shape, r: Request)
    requires Inv(v, fat, g) && r.parent in g.depth && r.name != NO_NAME
    ensures CanDelete(v, fat, r) && FreeCount(DeletePlan(v, fat, r).fat) >= FreeCount(fat)
    ensures FileThere(Abs(v, fat, g), r) ==>
              FreeCount(DeletePlan(v, fat, r).fat) == FreeCount(fat) + FileClusters(Abs(v, fat, g), r) > FreeCount(fat)
  {
    hide DecodeTable, DirectoryAt, Inv, FreeCount, DeleteSpec;
    RowInTree(v, fat, g, r.parent, Arg(r.name, r.ext));
    DeleteAllowed(v, fat, g, r);
    if RemovedPlace(v, r).slot < TABLE_SIZE { FoundIsPlace(v, fat, g, r); }
    if Removing(v, g, r) {
      DeleteGives(v, fat, g, r);
      if FileThere(Abs(v, fat, g), r) { DeleteFrees(v, fat, g, r); }
    } else {
      RejectedDelete(v, fat, r);
    }
  }

  /** A directory that a delete takes out of the tree is left with a dead header. */
  lemma GoneIsDead(v: Volume, fat: Fat, g: Shape, r: Request, c: nat)
    requires Inv(v, fat, g) && r.parent in g.depth && r.name != NO_NAME && c in g.depth
    requires c !in DeleteShape(v, fat, g, r).depth
    ensures CanDelete(v, fat, r) && c < IMAGE_CLUSTERS && !Live(Tab(Apply(v, DeletePlan(v, fat, r).writes), c)[0])
  {
    hide DecodeTable, Inv, DeletePlan, Clear, Chain;
    DeleteAllowed(v, fat, g, r);
    LiveTable(v, fat, g, c);
    HeadApart(v, fat, g, r, EntryAt(Tabs(v), RemovedPlace(v, r)));
    DeleteEffect(v, fat, g, r);
  }

  /** Reads the file into the buffer and deletes it: the first two calls of both branches. */
  method Lift(driver: Driver, r: Request, buf: array<byte>, ghost g: Shape) returns (ghost g': Shape)
    requires driver.Valid() && Inv(driver.Contents(), driver.Cached(), g) && r.parent in g.depth
    requires r.name != NO_NAME && r.bufferSize == MOVED_SIZE
    requires buf != driver.disk.image && (buf as object) != driver.fatTable
    requires exists n :: n >= 1 && buf[..] == Zeros(CLUSTER_SIZE * n)
    modifies buf, driver`log, driver.disk.image, driver.fatTable, driver.dirTable
    ensures driver.Valid() && Inv(driver.Contents(), driver.Cached(), g')
    ensures var a := old(Abs(driver.Contents(), driver.Cached(), g));
            && Abs(driver.Contents(), driver.Cached(), g') == Lifted(a, r.parent, Key(r.name, r.ext))
            && CLUSTER_SIZE <= buf.Length && buf[..CLUSTER_SIZE] == Carried(a[r.parent], Key(r.name, r.ext))
            && FreeCount(driver.Cached()) >= old(FreeCount(driver.Cached()))
    ensures var a := old(Abs(driver.Contents(), driver.Cached(), g));
            FileThere(a, r) ==>
              FreeCount(driver.Cached()) == old(FreeCount(driver.Cached())) + FileClusters(a, r) > 0
    ensures forall c :: c in g.depth && c !in g'.depth ==> c < IMAGE_CLUSTERS && !Live(Tab(driver.Contents(), c)[0])
  {
    hide DecodeTable, DecodeFat, Inv, DirectoryAt, Carried, ReadPlan, DeletePlan, DeleteShape, CanRead, CanDelete,
         FreeCount, DeleteSpec, Lifted, FileThere, FileClusters;
    ghost var v, fat := driver.Contents(), driver.Cached();
    ghost var n :| n >= 1 && buf[..] == Zeros(CLUSTER_SIZE * n);
    assert |buf[..]| == CLUSTER_SIZE * n;
    assert ClustersNeeded(MOVED_SIZE) == 1;
    BufferAfterRead(v, fat, g, r, n);
    CachedStays(v, fat, g);
    var code := driver.Read(r, buf);
    assert buf[..CLUSTER_SIZE] == buf[..][..CLUSTER_SIZE];
    assert driver.Contents() == v && driver.Cached() == fat;
    DeleteKeepsInv(v, fat, g, r);
    DeleteRefines(v, fat, g, r);
    LiftFrees(v, fat, g, r);
    g' := DeleteShape(v, fat, g, r);
    forall c | c in g.depth && c !in g'.depth
      ensures c < IMAGE_CLUSTERS && !Live(Tab(Apply(v, DeletePlan(v, fat, r).writes), c)[0])
    {
      GoneIsDead(v, fat, g, r, c);
    }
    code := driver.Delete(r);
    DeleteLifts(Abs(v, fat, g), r, code, Abs(driver.Contents(), driver.Cached(), g'));
  }

  lemma CachedStays(v: Volume, fat: Fat, g: Shape)
    requires Inv(v, fat, g)
    ensures FatOn(v) == fat && Apply(v, []) == v
  {
  }

  /** Writes the buffer as the new file: the last call of both branches. The parent may have been deleted
      by the call before. */
  method Drop(driver: Driver, r: Request, ghost g: Shape) returns (code: int, ghost g': Shape)
    requires driver.Valid() && Inv(driver.Contents(), driver.Cached(), g)
    requires r.parent in g.depth || !Live(Tab(driver.Contents(), r.parent)[0])
    requires r.name != NO_NAME && r.bufferSize == MOVED_SIZE && Buffered(r.buf, MOVED_SIZE)
    requires FreeCount(driver.Cached()) >= 1
    modifies driver`log, driver.disk.image, driver.fatTable, driver.dirTable
    ensures driver.Valid() && Inv(driver.Contents(), driver.Cached(), g')
    ensures Abs(driver.Contents(), driver.Cached(), g')
         == Dropped(old(Abs(driver.Contents(), driver.Cached(), g)), r.parent,
                    Key(r.name, r.ext), r.buf[..CLUSTER_SIZE])
    ensures code == 0 <==> Takes(old(Abs(driver.Contents(), driver.Cached(), g)), r.parent, Key(r.name, r.ext))
    ensures FreeCount(driver.Cached()) == old(FreeCount(driver.Cached())) - if code == 0 then 1 else 0
  {
    hide DecodeTable, DecodeFat, Inv, DirectoryAt, WritePlan, WriteShape, FreeCount, Admitted, Dropped, WriteSpec;
    ghost var v, fat := driver.Contents(), driver.Cached();
    assert Needed(r) == 1;
    assert CanWrite(v, fat, r);
    if r.parent in g.depth {
      WriteFrees(v, fat, g, r);
      WriteKeepsInv(v, fat, g, r);
      WriteRefines(v, fat, g, r);
      AdmittedExact(v, fat, g, r);
      WriteDrops(Abs(v, fat, g), r, WritePlan(v, fat, r).code,
                 Abs(Apply(v, WritePlan(v, fat, r).writes), WritePlan(v, fat, r).fat, WriteShape(v, fat, g, r)));
    } else {
      DeadParent(v, fat, r);
      NotDropped(Abs(v, fat, g), r.parent, Key(r.name, r.ext), r.buf[..CLUSTER_SIZE]);
    }
    code := driver.Write(r);
    g' := if r.parent in g.depth then WriteShape(v, fat, g, r) else g;
  }

  lemma WriteFrees(v: Volume, fat: Fat, g: Shape, r: Request)
    requires Inv(v, fat, g) && r.parent in g.depth && Proper(r) && CanWrite(v, fat, r) && r.bufferSize > 0
    ensures FreeCount(WritePlan(v, fat, r).fat) ==
            FreeCount(fat) - if WritePlan(v, fat, r).code == 0 then Needed(r) else 0
  {
    hide DecodeTable, Inv, FreeCount, FilePlan, FolderPlan;
    if Admitted(Tab(v, r.parent), r) { WriteTakes(v, fat, g, r); }
  }

  lemma DeadParent(v: Volume, fat: Fat, r: Request)
    requires CanWrite(v, fat, r) && !Live(Tab(v, r.parent)[0])
    ensures WritePlan(v, fat, r).code == 2 && WritePlan(v, fat, r).fat == fat
    ensures Apply(v, WritePlan(v, fat, r).writes) == v
  {
    hide DecodeTable;
  }

  lemma NotDropped(a: FileTree, c: nat, k: Key, bytes: seq<byte>)
    requires c !in a
    ensures Dropped(a, c, k, bytes) == a
  {
  }

  /** The three calls of both branches: read, delete, and write under the second name and parent. */
  method Transfer(driver: Driver, source: Request, parent: ClusterNo, name: Name, cl: array<byte>, ghost g: Shape)
    returns (code: int, ghost g': Shape)
    requires driver.Valid() && Inv(driver.Contents(), driver.Cached(), g) && source.parent in g.depth
    requires parent as nat in g.depth
    requires source.name != NO_NAME && name != NO_NAME && source.bufferSize == MOVED_SIZE
    requires cl != driver.disk.image && (cl as object) != driver.fatTable
    requires exists n :: n >= 1 && cl[..] == Zeros(CLUSTER_SIZE * n)
    requires FreeCount(driver.Cached()) >= 1 || FileThere(Abs(driver.Contents(), driver.Cached(), g), source)
    modifies cl, driver`log, driver.disk.image, driver.fatTable, driver.dirTable
    ensures driver.Valid() && Inv(driver.Contents(), driver.Cached(), g')
    ensures var a, k, k' := old(Abs(driver.Contents(), driver.Cached(), g)), Key(source.name, source.ext),
            Key(name, source.ext);
            var lifted := Lifted(a, source.parent, k);
            && Abs(driver.Contents(), driver.Cached(), g') == Dropped(lifted, parent, k', Carried(a[source.parent], k))
            && (code == 0 <==> Takes(lifted, parent, k'))
            && (FileThere(a, source) && Takes(lifted, parent, k') ==>
                  FreeCount(driver.Cached()) + 1 == old(FreeCount(driver.Cached())) + FileClusters(a, source))
  {
    hide DecodeTable, Inv, DirectoryAt, Carried, Lifted, Dropped, FreeCount, Takes;
    ghost var g1 := Lift(driver, source, cl, g);
    var target := source.(parent := parent, name := name, buf := cl[..]);
    assert cl[..][..CLUSTER_SIZE] == cl[..CLUSTER_SIZE];
    code, g' := Drop(driver, target, g1);
  }

  /** `mv` of a file in the current directory: the tree it leaves, and the code of the final write, or 0
      when there is none. A rename gives back all clusters of the file but one. */
  method Mv(s: Session, arg1: Arg, arg2: Arg, ghost g: Shape, ghost d: nat)
    returns (code: int, ghost g': Shape)
    requires s.At(g, d) && arg1.info != NO_NAME && arg2.info != NO_NAME
    requires var entries := Abs(s.driver.Contents(), s.driver.Cached(), g)[d].entries;
             && Key(arg1.info, arg1.ext) in entries && entries[Key(arg1.info, arg1.ext)].FileNode?
             && (FreeCount(s.driver.Cached()) >= 1
                 || (Key(arg1.info, NO_EXT) in entries && entries[Key(arg1.info, NO_EXT)].FileNode?))
    modifies s.driver`log, s.driver.disk.image, s.driver.fatTable, s.driver.dirTable
    ensures s.driver.Valid() && Inv(s.driver.Contents(), s.driver.Cached(), g')
    ensures Abs(s.driver.Contents(), s.driver.Cached(), g')
         == MvTree(old(Abs(s.driver.Contents(), s.driver.Cached(), g)), d, arg1, arg2)
    ensures code == 0 <==> Written(old(Abs(s.driver.Contents(), s.driver.Cached(), g)), d, arg1, arg2)
    ensures var d := old(Abs(s.driver.Contents(), s.driver.Cached(), g))[d];
            var k := Key(arg1.info, NO_EXT);
            k in d.entries && d.entries[k].FileNode?
            && Key(arg2.info, arg2.ext) !in d.entries && Key(arg2.info, NO_EXT) !in d.entries ==>
              FreeCount(s.driver.Cached()) + 1 == old(FreeCount(s.driver.Cached())) + ClustersNeeded(d.entries[k].size)
  {
    hide DecodeTable, Inv, DirectoryAt, Carried, Lifted, Dropped, FreeCount, Takes, MvTree, Written, FindKey,
         IsDirTable;
    ghost var v, fat := s.driver.Contents(), s.driver.Cached();
    ghost var a := Abs(v, fat, g);
    RowInTree(v, fat, g, d, arg1);
    RowInTree(v, fat, g, d, arg2);
    var row := EntryRow(s.currentDir, arg1);
    var needed := s.currentDir[row].filesize / CLUSTER_SIZE;
    if s.currentDir[row].filesize % CLUSTER_SIZE != 0 { needed := needed + 1; }
    var cl := ZeroBuffer(needed);
    var source := Request(FirstCluster(s.currentDir[0]), arg1.info, NO_EXT, MOVED_SIZE, []);
    var entryRow := EntryRow(s.currentDir, arg2);
    code, g' := 0, g;
    MvCases(a, d, arg1, arg2);
    if entryRow == TABLE_SIZE {
      LiftedRoom(a, d, Key(arg1.info, NO_EXT), Key(arg2.info, NO_EXT));
      code, g' := Transfer(s.driver, source, source.parent, arg2.info, cl, g);
    } else if s.currentDir[entryRow].attribute == ATTR_SUBDIRECTORY {
      code, g' := Transfer(s.driver, source, FirstCluster(s.currentDir[entryRow]), arg1.info, cl, g);
    }
  }

  lemma MvCases(a: FileTree, d: nat, arg1: Arg, arg2: Arg)
    requires d in a
    ensures var k, k2 := Key(arg1.info, NO_EXT), Key(arg2.info, arg2.ext);
            && (k2 !in a[d].entries ==>
                  MvTree(a, d, arg1, arg2) == Dropped(Lifted(a, d, k), d, Key(arg2.info, NO_EXT), Carried(a[d], k)))
            && (k2 in a[d].entries && a[d].entries[k2].DirNode? ==>
                  MvTree(a, d, arg1, arg2) == Dropped(Lifted(a, d, k), a[d].entries[k2].dir, k, Carried(a[d], k)))
            && (k2 in a[d].entries && a[d].entries[k2].FileNode? ==> MvTree(a, d, arg1, arg2) == a)
            && (k2 !in a[d].entries ==>
                  (Written(a, d, arg1, arg2) <==> Takes(Lifted(a, d, k), d, Key(arg2.info, NO_EXT))))
            && (k2 in a[d].entries && a[d].entries[k2].DirNode? ==>
                  (Written(a, d, arg1, arg2) <==> Takes(Lifted(a, d, k), a[d].entries[k2].dir, k)))
            && (k2 in a[d].entries && a[d].entries[k2].FileNode? ==> Written(a, d, arg1, arg2))
  {
  }

  /** After a file has gone there is room for another. */
  lemma LiftedRoom(a: FileTree, d: nat, k: Key, k': Key)
    requires d in a && |a[d].entries| <= CAPACITY
    ensures k in a[d].entries && a[d].entries[k].FileNode? && k' !in a[d].entries ==>
              Takes(Lifted(a, d, k), d, k')
  {
    if k in a[d].entries && a[d].entries[k].FileNode? {
      var rest := Minus(a[d], k);
      assert rest.entries.Keys == a[d].entries.Keys - {k};
      assert |rest.entries| == |rest.entries.Keys| && |a[d].entries| == |a[d].entries.Keys|;
    }
  }
}
