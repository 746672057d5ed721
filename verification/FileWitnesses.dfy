/** Inputs on which the file system does not do what one would hope, from a freshly formatted blank
    image. */
module FileWitnesses {
  import opened Types
  import opened Layout
  import opened Chains
  import opened Operations
  import opened Structure
  import opened Preservation
  import opened Tree
  import opened Refinement
  import opened Guarantees
  import opened Consequences
  import opened TreeShape
  import opened Find
  import opened Shell
  import opened Move
  import opened Fat32
  import opened FormatCuts
  import opened CrashSafety

  function BlankImage(): Volume { seq<Cluster>(IMAGE_CLUSTERS, n => ZERO_CLUSTER) }

  function Start(): World { Formatted(BlankImage()) }

  function Ones(n: nat): seq<byte> { seq(n, i => 1) }

  /** The names "data" and "rootx". */
  const DATA: Name := [0x64, 0x61, 0x74, 0x61, 0, 0, 0, 0]
  const ROOTX: Name := [0x72, 0x6F, 0x6F, 0x74, 0x78, 0, 0, 0]

  lemma OtherNames()
    ensures DATA != NO_NAME && DATA != ROOT_NAME && DATA != DOTDOT
    ensures DOTDOT != NO_NAME && ROOTX != NO_NAME && ROOTX != ROOT_NAME && ROOTX != DOTDOT && StartsWithRoot(ROOTX)
  {
    assert DOTDOT[0] != NO_NAME[0];
    assert DATA[0] != NO_NAME[0] && DATA[0] != ROOT_NAME[0] && DATA[0] != DOTDOT[0];
    assert ROOTX[0] != NO_NAME[0] && ROOTX[4] != ROOT_NAME[4] && ROOTX[0] != DOTDOT[0];
  }

  lemma RoomForFour()
    ensures FreeCount(FIRST_FAT) >= 4
  {
    assert FreeFrom(FIRST_FAT, 6) == [6] + FreeFrom(FIRST_FAT, 7);
    assert FreeFrom(FIRST_FAT, 5) == [5] + FreeFrom(FIRST_FAT, 6);
    assert FreeFrom(FIRST_FAT, 4) == [4] + FreeFrom(FIRST_FAT, 5);
    assert FreeFrom(FIRST_FAT, 3) == [3] + FreeFrom(FIRST_FAT, 4);
    assert FreeFrom(FIRST_FAT, 1) == FreeFrom(FIRST_FAT, 2) == FreeFrom(FIRST_FAT, 3);
  }

  lemma Started()
    ensures Good(Start()) && View(Start()) == EMPTY_TREE && FreeCount(Start().fat) >= 4
    ensures FreeDead(Tabs(Start().v), Start().fat)
  {
    hide DecodeTable, FatOn, Inv, FormatWrites, Apply, FreeCount, DirectoryAt, FreeDead;
    BlankDisk(BlankImage());
    FormatInv(BlankImage());
    RoomForFour();
  }

  /** The tree and the room after a request that meets no obstacle. */
  lemma Entered(w: World, r: Request)
    requires Good(w) && r.parent in View(w) && Proper(r) && (r.bufferSize > 0 ==> Buffered(r.buf, r.bufferSize))
    requires Needed(r) <= FreeCount(w.fat)
    requires |View(w)[r.parent].entries| < CAPACITY && Key(r.name, r.ext) !in View(w)[r.parent].entries
    ensures Adding(w.v, w.fat, w.g, r) && WritePlan(w.v, w.fat, r).code == 0
    ensures Allowed(w, DoWrite(r)) && Runnable(w, DoWrite(r)) && Good(Step(w, DoWrite(r)))
    ensures FreeCount(Step(w, DoWrite(r)).fat) == FreeCount(w.fat) - Needed(r)
    ensures AddedCells(w.fat, r)[0] < CLUSTER_MAP_SIZE
    ensures if r.bufferSize == 0 then FreshFolder(View(w), r, AddedCells(w.fat, r)[0], View(Step(w, DoWrite(r))))
            else View(Step(w, DoWrite(r)))
                 == View(w)[r.parent := Plus(View(w)[r.parent], Key(r.name, r.ext),
                                             FileNode(r.bufferSize, Stored(r.buf, r.bufferSize)))]
  {
    hide DecodeTable, FatOn, Admitted, Inv, Apply, WriteShape, FreeCount, Needed, DirectoryAt, Stored, Plus;
    AdmittedExact(w.v, w.fat, w.g, r);
    StepRefines(w, DoWrite(r));
    WriteTakes(w.v, w.fat, w.g, r);
    AdmittedRefines(w.v, w.fat, w.g, r);
    FreshCells(w.v, w.fat, w.g, Needed(r));
    assert AddedCells(w.fat, r)[0] in AddedCells(w.fat, r);
  }

  /** A formatted blank image takes any request of up to two clusters in its root. */
  lemma Enters(r: Request)
    requires r.parent == ROOT_CLUSTER && Proper(r) && Needed(r) <= 2
    requires (r.bufferSize > 0 ==> Buffered(r.buf, r.bufferSize))
    ensures Good(Start()) && View(Start()) == EMPTY_TREE
    ensures Adding(Start().v, Start().fat, Start().g, r)
    ensures Allowed(Start(), DoWrite(r)) && Runnable(Start(), DoWrite(r)) && Good(Step(Start(), DoWrite(r)))
  {
    hide Good, View, Start, FreeCount, Needed, Allowed, Runnable, Step, Adding;
    Started();
    Entered(Start(), r);
  }

  /** 4096 bytes of 1, written and read back: half of them are lost. */
  lemma LostCluster()
    ensures var r := Request(ROOT_CLUSTER, DATA, NO_EXT, 4096, Ones(4096));
            && Allowed(Start(), DoWrite(r)) && Runnable(Start(), DoWrite(r)) && Report(Start(), DoWrite(r)).code == 0
            && var w := Step(Start(), DoWrite(r));
               && Allowed(w, DoRead(r)) && Runnable(w, DoRead(r)) && Report(w, DoRead(r)).code == 0
               && |Report(w, DoRead(r)).bytes| == 4096 && Report(w, DoRead(r)).bytes != r.buf
  {
    hide DecodeTable, FatOn, Inv, FormatWrites, Apply, WriteShape, WritePlan, Stored, ReadPlan, CanRead, DirectoryAt,
         FilePart;
    var r := Request(ROOT_CLUSTER, DATA, NO_EXT, 4096, Ones(4096));
    OtherNames();
    Enters(r);
    var w := Start();
    WriteThenRead(w.v, w.fat, w.g, r, r);
    ReadBackExact(w.v, w.fat, w.g, r, r);
    RoundTripExact(r.buf, 4096);
    assert r.buf[2048..4096][0] != ZERO_CLUSTER[0];
    DirsStay(w.v, w.fat, w.g, r);
  }

  // ----- mv -----

  /** The names "copy" and "sub". */
  const COPY: Name := [0x63, 0x6F, 0x70, 0x79, 0, 0, 0, 0]
  const SUB: Name := [0x73, 0x75, 0x62, 0, 0, 0, 0, 0]

  lemma MoreNames()
    ensures COPY != NO_NAME && COPY != DATA && SUB != NO_NAME && SUB != DATA
  {
    assert COPY[0] != NO_NAME[0] && COPY[0] != DATA[0] && SUB[0] != NO_NAME[0] && SUB[0] != DATA[0];
  }

  lemma StoredOnes()
    ensures Stored(Ones(4096), 2049) != Zeros(CLUSTER_SIZE)
    ensures Stored(Ones(2048), 2048) == Ones(2048) != Zeros(CLUSTER_SIZE) == Stored(Zeros(2048), 2048)
  {
    assert Stored(Ones(4096), 2049)[0] == 1 && Ones(2048)[0] == 1;
  }

  /** A driver over a freshly formatted blank image. */
  method FreshDriver() returns (driver: Driver)
    ensures driver.Valid() && fresh(driver) && fresh(driver.disk.image) && fresh(driver.fatTable)
    ensures fresh(driver.dirTable)
    ensures driver.Contents() == Start().v && driver.Cached() == Start().fat
  {
    hide Signed, FormatWrites, Apply, DecodeTable;
    driver := new Driver();
    assert driver.Contents() == BlankImage();
    BlankUnformatted(BlankImage());
    driver.Initialize();
  }

  ghost predicate Meets(w: World, r: Request) {
    && r.parent in View(w) && Proper(r) && (r.bufferSize > 0 ==> Buffered(r.buf, r.bufferSize))
    && Needed(r) <= FreeCount(w.fat)
    && |View(w)[r.parent].entries| < CAPACITY && Key(r.name, r.ext) !in View(w)[r.parent].entries
  }

  /** Has the driver do a request that meets no obstacle. */
  method Send(driver: Driver, r: Request, ghost w: World) returns (ghost w': World)
    requires driver.Valid() && driver.Contents() == w.v && driver.Cached() == w.fat && Good(w) && Meets(w, r)
    modifies driver`log, driver.disk.image, driver.fatTable, driver.dirTable
    ensures driver.Valid() && driver.Contents() == w'.v && driver.Cached() == w'.fat && Good(w')
    ensures FreeCount(w'.fat) == FreeCount(w.fat) - Needed(r)
    ensures if r.bufferSize == 0 then FreshFolder(View(w), r, AddedCells(w.fat, r)[0], View(w'))
            else View(w') == View(w)[r.parent := Plus(View(w)[r.parent], Key(r.name, r.ext),
                                                      FileNode(r.bufferSize, Stored(r.buf, r.bufferSize)))]
  {
    hide Inv, Apply, DecodeTable, FatOn, WritePlan, WriteShape, Stored, DirectoryAt, FreeCount, Admitted, Needed;
    Entered(w, r);
    w' := Step(w, DoWrite(r));
    var code := driver.Write(r);
  }

  /** A file of 2049 bytes of 1 renamed to "copy": the rename succeeds and leaves one cluster of zeros. */
  method RenameLoses() returns (driver: Driver, code: int, ghost g: Shape)
    ensures driver.Valid() && Inv(driver.Contents(), driver.Cached(), g) && code == 0
    ensures var a := Abs(driver.Contents(), driver.Cached(), g);
            && ROOT_CLUSTER in a
            && a[ROOT_CLUSTER].entries == map[Key(COPY, NO_EXT) := FileNode(CLUSTER_SIZE, Zeros(CLUSTER_SIZE))]
  {
    hide Inv, DecodeTable, FatOn, Stored, Start, DirectoryAt, FreeCount, MvTree, Written;
    driver := FreshDriver();
    var r := Request(ROOT_CLUSTER, DATA, NO_EXT, 2049, Ones(4096));
    OtherNames();
    MoreNames();
    Started();
    ghost var w := Send(driver, r, Start());
    var s := new Session(driver);
    s.CdRoot(w.g);
    code, g := Mv(s, Arg(DATA, NO_EXT), Arg(COPY, NO_EXT), w.g, ROOT_CLUSTER);
    Replaced(View(w), Stored(r.buf, 2049));
  }

  /** What `mv` makes of a lone file of two clusters. */
  lemma Replaced(a: FileTree, bytes: seq<byte>)
    requires ROOT_CLUSTER in a && a[ROOT_CLUSTER].entries == map[Key(DATA, NO_EXT) := FileNode(2049, bytes)]
    ensures Written(a, ROOT_CLUSTER, Arg(DATA, NO_EXT), Arg(COPY, NO_EXT))
    ensures var a' := MvTree(a, ROOT_CLUSTER, Arg(DATA, NO_EXT), Arg(COPY, NO_EXT));
            && ROOT_CLUSTER in a'
            && a'[ROOT_CLUSTER].entries == map[Key(COPY, NO_EXT) := FileNode(CLUSTER_SIZE, Zeros(CLUSTER_SIZE))]
  {
    MoreNames();
  }

  /** A file of 2048 bytes of 1 moved into a folder that has one of its name, of zeros: the move does not get
      through its final write, and only the zeros are left. */
  method MoveLoses() returns (driver: Driver, code: int, ghost g: Shape)
    ensures driver.Valid() && Inv(driver.Contents(), driver.Cached(), g) && code != 0
    ensures var a := Abs(driver.Contents(), driver.Cached(), g);
            && ROOT_CLUSTER in a && a[ROOT_CLUSTER].entries == map[Key(SUB, NO_EXT) := DirNode(3)]
            && 3 in a && a[3].entries == map[Key(DATA, NO_EXT) := FileNode(CLUSTER_SIZE, Zeros(CLUSTER_SIZE))]
  {
    hide Inv, DecodeTable, FatOn, Stored, Start, DirectoryAt, FreeCount, MvTree, Written, Picks, AddedCells;
    driver := FreshDriver();
    OtherNames();
    MoreNames();
    StoredOnes();
    Started();
    var folder := Request(ROOT_CLUSTER, SUB, NO_EXT, 0, []);
    FirstCell(folder);
    ghost var w1 := Send(driver, folder, Start());
    ghost var w2 := Send(driver, Request(3, DATA, NO_EXT, 2048, Zeros(2048)), w1);
    ghost var w3 := Send(driver, Request(ROOT_CLUSTER, DATA, NO_EXT, 2048, Ones(2048)), w2);
    var s := new Session(driver);
    s.CdRoot(w3.g);
    code, g := Mv(s, Arg(DATA, NO_EXT), Arg(SUB, NO_EXT), w3.g, ROOT_CLUSTER);
    NotTaken(View(w3));
  }

  lemma FirstCell(r: Request)
    requires r.bufferSize == 0
    ensures Needed(r) <= FreeCount(Start().fat) && AddedCells(Start().fat, r)[0] == 3
  {
    RoomForFour();
    assert FreeFrom(FIRST_FAT, 3)[0] == 3;
    assert FreeFrom(FIRST_FAT, 1) == FreeFrom(FIRST_FAT, 2) == FreeFrom(FIRST_FAT, 3);
  }

  /** What `mv` makes of a file and a folder that has the name. */
  lemma NotTaken(a: FileTree)
    requires ROOT_CLUSTER in a && 3 in a
    requires a[ROOT_CLUSTER].entries
          == map[Key(SUB, NO_EXT) := DirNode(3), Key(DATA, NO_EXT) := FileNode(CLUSTER_SIZE, Ones(2048))]
    requires a[3].entries == map[Key(DATA, NO_EXT) := FileNode(CLUSTER_SIZE, Zeros(CLUSTER_SIZE))]
    ensures !Written(a, ROOT_CLUSTER, Arg(DATA, NO_EXT), Arg(SUB, NO_EXT))
    ensures var a' := MvTree(a, ROOT_CLUSTER, Arg(DATA, NO_EXT), Arg(SUB, NO_EXT));
            && ROOT_CLUSTER in a' && a'[ROOT_CLUSTER].entries == map[Key(SUB, NO_EXT) := DirNode(3)]
            && 3 in a' && a'[3] == a[3]
  {
    MoreNames();
  }

  // ----- cuts -----

  /** One cluster of data that looks like a table whose first entry is in use. */
  function Disguised(): (c: Cluster)
    ensures c[12] == UATTR_NOT_EMPTY
  {
    Ones(12) + [UATTR_NOT_EMPTY] + Ones(2035)
  }

  /** Its write cut off after the data leaves an entry in use in a free cluster. */
  lemma DirtyCluster(r: Request)
    requires r == Request(ROOT_CLUSTER, DATA, NO_EXT, 2048, Disguised())
    ensures Good(Start()) && FreeDead(Tabs(Start().v), Start().fat) && Allowed(Start(), CutWrite(r, 1))
    ensures Runnable(Start(), CutWrite(r, 1)) && Good(Step(Start(), CutWrite(r, 1)))
    ensures var w := Step(Start(), CutWrite(r, 1)); !FreeDead(Tabs(w.v), w.fat)
  {
    hide Good, View, Start, FreeCount, FreeDead, Allowed, Runnable, Step, Adding, Tabs, Disguised, FreshFolder;
    OtherNames();
    Started();
    Entered(Start(), r);
    CutLeavesEntry(Start(), r);
  }

  lemma CutLeavesEntry(w: World, r: Request)
    requires Good(w) && FreeDead(Tabs(w.v), w.fat) && Adding(w.v, w.fat, w.g, r)
    requires r.bufferSize == 2048 && r.buf == Disguised()
    ensures Allowed(w, CutWrite(r, 1)) && Runnable(w, CutWrite(r, 1)) && Good(Step(w, CutWrite(r, 1)))
    ensures var w' := Step(w, CutWrite(r, 1)); !FreeDead(Tabs(w'.v), w'.fat)
  {
    hide DecodeTable, FatOn, Inv, Apply, FreeDead, WritePlan, Admitted, CutWriteShape, FilePart, AllDead, Disguised,
         StepSpec, View, Report, Picks;
    WriteOrder(w.v, w.fat, w.g, r);
    StepRefines(w, CutWrite(r, 1));
    WriteLeavesDead(w.v, w.fat, w.g, r, 1);
    LooksUsed();
  }

  lemma LooksUsed()
    ensures FilePart(Disguised(), 2048, 0) == Disguised() && !AllDead(DecodeTable(Disguised()))
  {
    hide DecodeTable, DecodeEntry;
    FirstMark(Disguised());
  }

  /** The mark of the first entry lies in byte 12. */
  lemma FirstMark(c: Cluster)
    ensures DecodeTable(c)[0].userAttribute == c[12]
  {
    assert DecodeTable(c)[0] == DecodeEntry(c[..32]);
  }

  // ----- cd -----

  /** "cd rootx" and "cd ..": the shell is back in the root and its path still says "root/rootx". */
  lemma LostPath()
    ensures var r := Request(ROOT_CLUSTER, ROOTX, NO_EXT, 0, []);
            && Allowed(Start(), DoWrite(r)) && Runnable(Start(), DoWrite(r))
            && var w := Step(Start(), DoWrite(r)); var path := [ROOT_ARG, Arg(ROOTX, NO_EXT)];
               Good(w) && exists c :: LeadsAstray(w, path, c)
  {
    hide DecodeTable, FatOn, Inv, FormatWrites, Apply, WriteShape, WritePlan, DirectoryAt, PathTells, FirstIsFolder,
         Target;
    var r := Request(ROOT_CLUSTER, ROOTX, NO_EXT, 0, []);
    OtherNames();
    Enters(r);
    var w0, w := Start(), Step(Start(), DoWrite(r));
    AdmittedRefines(w0.v, w0.fat, w0.g, r);
    WayToFolder(w, ROOTX, AddedCells(w0.fat, r)[0]);
  }

  /** In the directory `c`, told by the path, ".." leads away and the path stays behind. */
  ghost predicate LeadsAstray(w: World, path: seq<Arg>, c: nat) {
    && c < CLUSTER_MAP_SIZE && path != [] && PathTells(Tabs(w.v), path, c)
    && FirstIsFolder(Tab(w.v, c), DOTDOT) && Target(Tab(w.v, c), DOTDOT) == ROOT_CLUSTER
    && MovedPath(path, DOTDOT) == path && !PathTells(Tabs(w.v), path, ROOT_CLUSTER)
  }

  lemma WayToFolder(w: World, name: Name, c: nat)
    requires Good(w) && name != NO_NAME && name != DOTDOT && StartsWithRoot(name)
    requires ROOT_CLUSTER in View(w) && Key(name, NO_EXT) in View(w)[ROOT_CLUSTER].entries
    requires View(w)[ROOT_CLUSTER].entries[Key(name, NO_EXT)] == DirNode(c)
    requires c in View(w) && View(w)[c].name == name && View(w)[c].parent == ROOT_CLUSTER
    ensures LeadsAstray(w, [ROOT_ARG, Arg(name, NO_EXT)], c)
  {
    hide DecodeTable, FatOn, Inv, EntriesFrom, FirstIsFolder, Target, Reaches;
    var v, g, path := w.v, w.g, [ROOT_ARG, Arg(name, NO_EXT)];
    LiveDirectory(v, w.fat, g, ROOT_CLUSTER);
    LiveDirectory(v, w.fat, g, c);
    FindKeyExact(v, w.fat, Tab(v, ROOT_CLUSTER), name, NO_EXT);
    var s := FindKey(Tab(v, ROOT_CLUSTER), name, NO_EXT, FIRST_SLOT);
    RootWalk(Tabs(v));
    assert PathTells(Tabs(v), [ROOT_ARG], ROOT_CLUSTER) by { assert [ROOT_ARG] == [ROOT_ARG] + []; }
    PathExtends(v, w.fat, g, [ROOT_ARG], ROOT_CLUSTER, s);
    assert [ROOT_ARG] + [Arg(name, NO_EXT)] == path;
    OtherNames();
    TargetIs(v, w.fat, g, c, DOTDOT);
    RootDepth(v, w.fat, g);
    if PathTells(Tabs(v), path, ROOT_CLUSTER) { PathShape(v, w.fat, g, path, ROOT_CLUSTER); }
  }

  lemma RootDepth(v: Volume, fat: Fat, g: Shape)
    requires Inv(v, fat, g)
    ensures ROOT_CLUSTER in g.depth && g.depth[ROOT_CLUSTER] == 0
  {
  }

  lemma RootWalk(tabs: Tables)
    ensures Reaches(tabs, ROOT_CLUSTER, [], ROOT_CLUSTER) && Names(tabs, ROOT_CLUSTER, []) == []
  {
  }
}
