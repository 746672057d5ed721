/** The shell's `cd`: the loaded directory table and the path kept beside it. */
module Shell {
  import opened Types
  import opened Layout
  import opened Operations
  import opened Structure
  import opened Preservation
  import opened Tree
  import opened Refinement
  import opened Fat32
  import opened TreeShape
  import opened Find

  const ROOT_ARG: Arg := Arg(ROOT_NAME, NO_EXT)

  /** The comparisons the shell makes look at the first 3 and the first 4 bytes only. */
  predicate LooksLikeDotDot(n: Name) { n[..3] == DOTDOT[..3] }

  predicate StartsWithRoot(n: Name) { n[..4] == ROOT_NAME[..4] }

  /** Argument names are padded with zeros. */
  predicate Argument(n: Name) { n != NO_NAME && (LooksLikeDotDot(n) ==> n == DOTDOT) }

  /** `path` spells the way from the root to the directory `d`. */
  ghost predicate PathTells(tabs: Tables, path: seq<Arg>, d: nat) {
    exists walk :: Reaches(tabs, ROOT_CLUSTER, walk, d) && path == [ROOT_ARG] + Names(tabs, ROOT_CLUSTER, walk)
  }

  /** Some folder in use, the directory itself and its parent included, has this name. */
  predicate OffersFolder(t: Table, n: Name) {
    exists s :: 0 <= s < TABLE_SIZE && Live(t[s]) && IsDir(t[s]) && t[s].name == n
  }

  /** Some folder in use has another name. */
  predicate OffersOther(t: Table, n: Name) {
    exists s :: 0 <= s < TABLE_SIZE && Live(t[s]) && IsDir(t[s]) && t[s].name != n
  }

  /** The first slot of this name is a folder: no file of the same name comes before it. */
  predicate FirstIsFolder(t: Table, n: Name) {
    FindName(t, n, 0) < TABLE_SIZE && IsDir(t[FindName(t, n, 0)])
  }

  /** Where the first folder of this name leads. */
  function Target(t: Table, n: Name): nat
    requires FirstIsFolder(t, n)
  {
    FirstCluster(t[FindName(t, n, 0)])
  }

  const EMPTY_TABLE: Table := DecodeTable(ZERO_CLUSTER)

  lemma NamesAppend(tabs: Tables, d: nat, walk: seq<nat>, e: nat, s: nat)
    requires Reaches(tabs, d, walk, e) && e < IMAGE_CLUSTERS && FIRST_SLOT <= s < TABLE_SIZE
    requires Live(tabs[e][s]) && IsDir(tabs[e][s])
    ensures Reaches(tabs, d, walk + [s], FirstCluster(tabs[e][s]))
    ensures Names(tabs, d, walk + [s]) == Names(tabs, d, walk) + [Arg(tabs[e][s].name, tabs[e][s].ext)]
    decreases |walk|
  {
    WalkAppend(tabs, d, walk, e, s);
    if walk == [] {
      assert [s][1..] == [];
      assert Reaches(tabs, FirstCluster(tabs[e][s]), [], FirstCluster(tabs[e][s]));
    } else {
      var c := FirstCluster(tabs[d][walk[0]]);
      assert (walk + [s])[1..] == walk[1..] + [s];
      NamesAppend(tabs, c, walk[1..], e, s);
    }
  }

  lemma NamesLength(tabs: Tables, d: nat, walk: seq<nat>, e: nat)
    requires Reaches(tabs, d, walk, e)
    ensures |Names(tabs, d, walk)| == |walk|
    decreases |walk|
  {
    if walk != [] { NamesLength(tabs, FirstCluster(tabs[d][walk[0]]), walk[1..], e); }
  }

  /** A telling path has one component for each level, and its last one is the directory's own name. */
  lemma PathShape(v: Volume, fat: Fat, g: Shape, path: seq<Arg>, d: nat)
    requires Inv(v, fat, g) && PathTells(Tabs(v), path, d)
    ensures d in g.depth && d < CLUSTER_MAP_SIZE && |path| == 1 + g.depth[d]
    ensures path[|path| - 1].info == Tab(v, d)[0].name
    ensures d != ROOT_CLUSTER ==> d in g.owner && PathTells(Tabs(v), path[..|path| - 1], g.owner[d].dir)
  {
    hide DecodeTable, Reaches, EntriesWellFormed, OwnersTrue;
    var tabs := Tabs(v);
    var walk :| Reaches(tabs, ROOT_CLUSTER, walk, d) && path == [ROOT_ARG] + Names(tabs, ROOT_CLUSTER, walk);
    WalkIsPath(tabs, fat, g, ROOT_CLUSTER, walk, d);
    NamesLength(tabs, ROOT_CLUSTER, walk, d);
    LiveTable(v, fat, g, d);
    assert TableOk(tabs, g, d);
    if d != ROOT_CLUSTER {
      LastStep(v, fat, g, walk, d);
    }
  }

  lemma LastStep(v: Volume, fat: Fat, g: Shape, walk: seq<nat>, d: nat)
    requires Inv(v, fat, g) && d != ROOT_CLUSTER && Reaches(Tabs(v), ROOT_CLUSTER, walk, d)
    ensures d in g.owner && g.owner[d].dir in g.depth && IsPlace(Tabs(v), g, g.owner[d])
    ensures var p := g.owner[d];
            exists shorter :: Reaches(Tabs(v), ROOT_CLUSTER, shorter, p.dir)
              && Names(Tabs(v), ROOT_CLUSTER, walk) ==
                    Names(Tabs(v), ROOT_CLUSTER, shorter) + [Arg(EntryAt(Tabs(v), p).name, EntryAt(Tabs(v), p).ext)]
  {
    hide DecodeTable, Orderly;
    var tabs := Tabs(v);
    ExactSound(v, fat, g);
    WalkIsPath(tabs, fat, g, ROOT_CLUSTER, walk, d);
    assert DirOk(tabs, g, d);
    var p := g.owner[d];
    assert DirOk(tabs, g, p.dir);
    PathReaches(tabs, fat, g, p.dir);
    var shorter := PathTo(tabs, fat, g, p.dir);
    var root := PathTo(tabs, fat, g, ROOT_CLUSTER);
    assert root == [] && root + walk == walk;
    assert walk == shorter + [p.slot];
    NamesAppend(tabs, ROOT_CLUSTER, shorter, p.dir, p.slot);
  }

  lemma ExactSound(v: Volume, fat: Fat, g: Shape)
    requires Inv(v, fat, g)
    ensures Sound(Tabs(v), fat, g)
  {
  }

  lemma FolderExt(v: Volume, fat: Fat, g: Shape, d: nat, s: nat)
    requires Inv(v, fat, g) && d in g.depth && d < CLUSTER_MAP_SIZE && FIRST_SLOT <= s < TABLE_SIZE
    requires Live(Tab(v, d)[s]) && IsDir(Tab(v, d)[s])
    ensures Tab(v, d)[s].ext == NO_EXT
  {
    hide DecodeTable;
    var p := Place(d, s);
    assert EntryAt(Tabs(v), p) == Tab(v, d)[s] && IsPlace(Tabs(v), g, p);
    assert WellFormed(fat, EntryAt(Tabs(v), p));
  }

  lemma PathExtends(v: Volume, fat: Fat, g: Shape, path: seq<Arg>, d: nat, s: nat)
    requires Inv(v, fat, g) && PathTells(Tabs(v), path, d) && d < CLUSTER_MAP_SIZE
    requires FIRST_SLOT <= s < TABLE_SIZE && Live(Tab(v, d)[s]) && IsDir(Tab(v, d)[s])
    ensures PathTells(Tabs(v), path + [Arg(Tab(v, d)[s].name, NO_EXT)], FirstCluster(Tab(v, d)[s]))
  {
    hide DecodeTable, Reaches, Inv, Sound;
    var tabs := Tabs(v);
    var walk :| Reaches(tabs, ROOT_CLUSTER, walk, d) && path == [ROOT_ARG] + Names(tabs, ROOT_CLUSTER, walk);
    ExactSound(v, fat, g);
    WalkIsPath(tabs, fat, g, ROOT_CLUSTER, walk, d);
    FolderExt(v, fat, g, d, s);
    NamesAppend(tabs, ROOT_CLUSTER, walk, d, s);
    assert path + [Arg(tabs[d][s].name, NO_EXT)] == [ROOT_ARG] + Names(tabs, ROOT_CLUSTER, walk + [s]);
  }

  lemma EmptyTableDead()
    ensures forall n :: !OffersOther(EMPTY_TABLE, n)
  {
    ZeroTable();
  }

  /** Where the first slot of a name leads, in a live directory. */
  lemma TargetIs(v: Volume, fat: Fat, g: Shape, d: nat, n: Name)
    requires Inv(v, fat, g) && d in g.depth && n != NO_NAME
    ensures d < CLUSTER_MAP_SIZE
    ensures n == Tab(v, d)[0].name ==> FirstIsFolder(Tab(v, d), n) && Target(Tab(v, d), n) == d
    ensures n == DOTDOT && n != Tab(v, d)[0].name ==>
            FirstIsFolder(Tab(v, d), n) && Target(Tab(v, d), n) == ParentOf(g, d)
    ensures FirstIsFolder(Tab(v, d), n) && n != DOTDOT && n != Tab(v, d)[0].name ==>
              exists s :: FIRST_SLOT <= s < TABLE_SIZE && Live(Tab(v, d)[s]) && IsDir(Tab(v, d)[s])
                && Tab(v, d)[s].name == n && Target(Tab(v, d), n) == FirstCluster(Tab(v, d)[s])
  {
    hide DecodeTable, EntriesFrom, Inv;
    LiveDirectory(v, fat, g, d);
    var t := Tab(v, d);
    assert FindName(t, n, 0) == if t[0].name == n then 0 else FindName(t, n, 1);
    assert FindName(t, n, 1) == if t[1].name == n then 1 else FindName(t, n, 2);
  }

  /** The arguments for which `cd` leaves the stored path right: not the directory's own name, and not
      ".." in a sub-directory whose name starts with "root". */
  predicate Faithful(t: Table, d: nat, n: Name) {
    n != t[0].name && !(n == DOTDOT && d != ROOT_CLUSTER && StartsWithRoot(t[0].name))
  }

  /** The path `cd` leaves when it moves: shortened for "..", unless its last component starts with
      "root", and otherwise extended. */
  function MovedPath(path: seq<Arg>, n: Name): seq<Arg>
    requires path != []
  {
    if n == DOTDOT then
      if StartsWithRoot(path[|path| - 1].info) then path else path[..|path| - 1]
    else path + [Arg(n, NO_EXT)]
  }

  /** `cd` keeps the path telling exactly for faithful arguments. */
  lemma PathStaysRight(v: Volume, fat: Fat, g: Shape, path: seq<Arg>, d: nat, n: Name)
    requires Inv(v, fat, g) && d in g.depth && path != [] && PathTells(Tabs(v), path, d) && n != NO_NAME
    requires d < IMAGE_CLUSTERS && FirstIsFolder(Tab(v, d), n)
    ensures Target(Tab(v, d), n) in g.depth
    ensures PathTells(Tabs(v), MovedPath(path, n), Target(Tab(v, d), n)) <==> Faithful(Tab(v, d), d, n)
  {
    hide DecodeTable, FindName, PathTells, Inv, Target;
    var t := Tab(v, d);
    TargetIs(v, fat, g, d, n);
    PathShape(v, fat, g, path, d);
    if n == t[0].name {
      if PathTells(Tabs(v), MovedPath(path, n), d) { PathShape(v, fat, g, MovedPath(path, n), d); DotDotNotRootLike(); }
    } else if n == DOTDOT {
      RootTable(v, fat, g, d);
      if d != ROOT_CLUSTER {
        ParentLive(v, fat, g, d);
        if StartsWithRoot(t[0].name) && PathTells(Tabs(v), path, ParentOf(g, d)) {
          PathShape(v, fat, g, path, ParentOf(g, d));
        }
      }
    } else {
      var s :| FIRST_SLOT <= s < TABLE_SIZE && Live(t[s]) && IsDir(t[s]) && t[s].name == n
               && Target(t, n) == FirstCluster(t[s]);
      PathExtends(v, fat, g, path, d, s);
      PathShape(v, fat, g, path + [Arg(n, NO_EXT)], FirstCluster(t[s]));
    }
  }

  lemma DotDotNotRootLike()
    ensures !StartsWithRoot(DOTDOT)
  {
    assert DOTDOT[..4][0] != ROOT_NAME[..4][0];
  }

  lemma RootTable(v: Volume, fat: Fat, g: Shape, d: nat)
    requires Inv(v, fat, g) && d in g.depth
    ensures ROOT_NAME != NO_NAME
    ensures d == ROOT_CLUSTER ==>
            ParentOf(g, d) == d && Tab(v, ROOT_CLUSTER)[0].name == ROOT_NAME && StartsWithRoot(ROOT_NAME)
  {
    hide DecodeTable;
    assert ROOT_NAME[0] != NO_NAME[0];
    LiveTable(v, fat, g, d);
    assert d == ROOT_CLUSTER ==> HeadOk(Tabs(v), g, d);
  }

  lemma ParentLive(v: Volume, fat: Fat, g: Shape, d: nat)
    requires Inv(v, fat, g) && d in g.depth && d != ROOT_CLUSTER
    ensures d in g.owner && ParentOf(g, d) == g.owner[d].dir && ParentOf(g, d) in g.depth
    ensures g.depth[d] == g.depth[ParentOf(g, d)] + 1
  {
    hide DecodeTable;
    assert DirOk(Tabs(v), g, d);
  }

  // ----- sequences of cd -----

  /** One `cd`: the directory and path it leads to. Names on offer nowhere change nothing. */
  function CdStep(v: Volume, at: (nat, seq<Arg>), n: Name): (nat, seq<Arg>)
    requires at.0 < IMAGE_CLUSTERS && at.1 != []
  {
    var t := Tab(v, at.0);
    if OffersFolder(t, n) && FirstIsFolder(t, n) then (Target(t, n), MovedPath(at.1, n)) else at
  }

  /** Every name of the sequence is an argument, meets no file of the same name first, and is faithful. */
  predicate FaithfulRun(v: Volume, at: (nat, seq<Arg>), names: seq<Name>)
    decreases |names|
  {
    names == [] ||
    (at.0 < IMAGE_CLUSTERS && at.1 != []
     && (var t, n := Tab(v, at.0), names[0];
         n != NO_NAME && (OffersFolder(t, n) ==> FirstIsFolder(t, n) && Faithful(t, at.0, n)))
     && FaithfulRun(v, CdStep(v, at, names[0]), names[1..]))
  }

  function CdRun(v: Volume, at: (nat, seq<Arg>), names: seq<Name>): (nat, seq<Arg>)
    requires FaithfulRun(v, at, names)
    decreases |names|
  {
    if names == [] then at else CdRun(v, CdStep(v, at, names[0]), names[1..])
  }

  /** After any faithful sequence of `cd` the stored path spells the way to the loaded directory. */
  lemma {:induction false} CdRunTells(v: Volume, fat: Fat, g: Shape, at: (nat, seq<Arg>), names: seq<Name>)
    requires Inv(v, fat, g) && at.1 != [] && at.0 in g.depth && PathTells(Tabs(v), at.1, at.0)
    requires FaithfulRun(v, at, names)
    ensures CdRun(v, at, names).0 in g.depth && PathTells(Tabs(v), CdRun(v, at, names).1, CdRun(v, at, names).0)
    decreases |names|
  {
    hide DecodeTable, Inv, PathTells, Faithful, Target, MovedPath;
    if names != [] {
      var next := CdStep(v, at, names[0]);
      if OffersFolder(Tab(v, at.0), names[0]) {
        PathStaysRight(v, fat, g, at.1, at.0, names[0]);
        NonEmptyPath(v, fat, g, next.1, next.0);
      }
      CdRunTells(v, fat, g, next, names[1..]);
    }
  }

  lemma NonEmptyPath(v: Volume, fat: Fat, g: Shape, path: seq<Arg>, d: nat)
    requires PathTells(Tabs(v), path, d)
    ensures path != []
  {
  }

  class Session {
    const driver: Driver
    var currentDir: Table
    var path: seq<Arg>

    /** A new shell: no table loaded, no path yet. */
    constructor (driver: Driver)
      ensures this.driver == driver && path == [] && currentDir == EMPTY_TABLE
    {
      this.driver := driver;
      currentDir := EMPTY_TABLE;
      path := [];
    }

    /** The shell has the table of the live directory `d` loaded. */
    ghost predicate At(g: Shape, d: nat)
      reads this, driver, driver.disk.image, driver.fatTable
    {
      && driver.Valid() && Inv(driver.Contents(), driver.Cached(), g)
      && d in g.depth && d < CLUSTER_MAP_SIZE && currentDir == Tab(driver.Contents(), d)
    }

    /** Loads the root and puts it on the path. */
    method CdRoot(ghost g: Shape)
      requires driver.Valid() && Inv(driver.Contents(), driver.Cached(), g) && |path| < PATH_CAPACITY
      modifies this, driver.dirTable
      ensures At(g, ROOT_CLUSTER) && OnlyBuffer(driver) && path == old(path) + [ROOT_ARG]
      ensures old(path) == [] ==> PathTells(Tabs(driver.Contents()), path, ROOT_CLUSTER)
    {
      hide DecodeTable, Inv;
      ghost var v, fat := driver.Contents(), driver.Cached();
      RootLive(v, fat, g);
      RootTable(v, fat, g, ROOT_CLUSTER);
      TargetIs(v, fat, g, ROOT_CLUSTER, ROOT_NAME);
      var r := Request(ROOT_CLUSTER, ROOT_NAME, NO_EXT, CLUSTER_SIZE, []);
      LoadAllowed(v, fat, g, r);
      var code, table := driver.ReadDirectory(r, EMPTY_TABLE);
      currentDir := table;
      path := path + [ROOT_ARG];
      assert Reaches(Tabs(v), ROOT_CLUSTER, [], ROOT_CLUSTER);
      assert [ROOT_ARG] == [ROOT_ARG] + Names(Tabs(v), ROOT_CLUSTER, []);
    }

    /** Changes to the folder `n`. When no folder of that name is on offer nothing happens; when a file
        of that name comes first the shell is left with an empty table; otherwise the folder is loaded
        and the path moved. */
    method Cd(n: Name, ghost g: Shape, ghost d: nat)
      requires At(g, d) && Argument(n) && 1 <= |path| <= PATH_CAPACITY
      requires |path| < PATH_CAPACITY || n == DOTDOT || !OffersFolder(currentDir, n)
      modifies this, driver.dirTable
      ensures driver.Valid() && OnlyBuffer(driver)
      ensures !old(OffersFolder(currentDir, n)) ==> currentDir == old(currentDir) && path == old(path)
      ensures old(OffersFolder(currentDir, n)) && !old(FirstIsFolder(currentDir, n)) ==>
                currentDir == EMPTY_TABLE && path == old(path)
      ensures old(OffersFolder(currentDir, n)) && old(FirstIsFolder(currentDir, n)) ==>
                At(g, Target(old(currentDir), n)) && path == MovedPath(old(path), n)
    {
      hide DecodeTable, Inv, FindName, ParentOf, EntriesFrom, KeysUnique, DeadNameless, Abs, MovedPath,
           OffersOther;
      ghost var v, fat := driver.Contents(), driver.Cached();
      var offered := ScanFolder(n);
      if !offered { return; }
      TargetIs(v, fat, g, d, n);
      LiveDirectory(v, fat, g, d);
      var r := Request(FirstCluster(currentDir[0]), n, NO_EXT, CLUSTER_SIZE, []);
      LoadAllowed(v, fat, g, r);
      var code, table := driver.ReadDirectory(r, EMPTY_TABLE);
      ghost var before := currentDir;
      currentDir := table;
      if n != DOTDOT {
        if FirstIsFolder(before, n) { HeaderOfTarget(v, fat, g, d, n); } else { EmptyTableDead(); }
      }
      MovePath(n);
    }

    /** The path half of `cd`: the path shrinks for ".."; for any other name it grows if the table just
        loaded shows some folder of another name, as every directory but an empty table does. */
    method MovePath(n: Name)
      requires Argument(n) && path != []
      modifies this`path
      ensures path == if n == DOTDOT || OffersOther(currentDir, n) then MovedPath(old(path), n) else old(path)
    {
      if n[..3] == DOTDOT[..3] {
        if path[|path| - 1].info[..4] != ROOT_NAME[..4] {
          path := path[..|path| - 1];
        }
      } else {
        var i := 0;
        while i < TABLE_SIZE && !(Live(currentDir[i]) && IsDir(currentDir[i]) && currentDir[i].name != n)
          invariant 0 <= i <= TABLE_SIZE
          invariant forall s :: 0 <= s < i ==> !(Live(currentDir[s]) && IsDir(currentDir[s]) && currentDir[s].name != n)
        {
          i := i + 1;
        }
        if i < TABLE_SIZE {
          path := path + [Arg(n, NO_EXT)];
        }
      }
    }

    method ScanFolder(n: Name) returns (offered: bool)
      ensures offered == OffersFolder(currentDir, n)
    {
      var i := 0;
      while i < TABLE_SIZE && !(Live(currentDir[i]) && IsDir(currentDir[i]) && currentDir[i].name == n)
        invariant 0 <= i <= TABLE_SIZE
        invariant forall s :: 0 <= s < i ==> !(Live(currentDir[s]) && IsDir(currentDir[s]) && currentDir[s].name == n)
      {
        i := i + 1;
      }
      offered := i < TABLE_SIZE;
    }

    /** Reloads the current directory after a change on disk, from its header alone. */
    method CdRefresh(ghost g: Shape, ghost d: nat)
      requires driver.Valid() && Inv(driver.Contents(), driver.Cached(), g) && d in g.depth && d < CLUSTER_MAP_SIZE
      requires currentDir[0] == Tab(driver.Contents(), d)[0]
      modifies this, driver.dirTable
      ensures At(g, d) && OnlyBuffer(driver) && path == old(path)
    {
      hide DecodeTable, Inv, FindName;
      ghost var v, fat := driver.Contents(), driver.Cached();
      LiveDirectory(v, fat, g, d);
      HeaderNamed(v, fat, g, d);
      var r := Request(FirstCluster(currentDir[0]), currentDir[0].name, NO_EXT, CLUSTER_SIZE, []);
      TargetIs(v, fat, g, d, r.name);
      LoadAllowed(v, fat, g, r);
      var code, table := driver.ReadDirectory(r, EMPTY_TABLE);
      currentDir := table;
    }
  }

  lemma RootLive(v: Volume, fat: Fat, g: Shape)
    requires Inv(v, fat, g)
    ensures ROOT_CLUSTER in g.depth
  {
  }

  lemma HeaderNamed(v: Volume, fat: Fat, g: Shape, d: nat)
    requires Inv(v, fat, g) && d in g.depth
    ensures d < CLUSTER_MAP_SIZE && Tab(v, d)[0].name != NO_NAME
  {
    hide DecodeTable;
    LiveTable(v, fat, g, d);
    assert DirOk(Tabs(v), g, d);
    RootTable(v, fat, g, d);
    if d != ROOT_CLUSTER { assert WellFormed(fat, EntryAt(Tabs(v), g.owner[d])); }
  }

  /** A directory load gives the table of the first folder of the name, if that slot is a folder. */
  lemma LoadAllowed(v: Volume, fat: Fat, g: Shape, r: Request)
    requires Inv(v, fat, g) && r.parent as nat in g.depth && r.name != NO_NAME
    ensures CanReadDirectory(v, r)
    ensures ReadDirectoryPlan(v, r).code == 0 <==> FirstIsFolder(Tab(v, r.parent), r.name)
    ensures FirstIsFolder(Tab(v, r.parent), r.name) ==>
              ReadDirectoryPlan(v, r).cells[0] == Target(Tab(v, r.parent), r.name)
              && Target(Tab(v, r.parent), r.name) in g.depth
  {
    hide DecodeTable;
    ReadDirectoryRefines(v, fat, g, r);
    LiveDirectory(v, fat, g, r.parent);
    var t := Tab(v, r.parent);
    var s := FindName(t, r.name, 0);
    if FIRST_SLOT <= s < TABLE_SIZE { LiveEntry(v, fat, g, r.parent, s); }
    if s == 1 { if r.parent != ROOT_CLUSTER { ParentLive(v, fat, g, r.parent); } }
    assert t[0].name == r.name ==> s == 0;
  }

  /** The folder a name leads to carries that name, and has "..", under another name, in entry 1. */
  lemma HeaderOfTarget(v: Volume, fat: Fat, g: Shape, d: nat, n: Name)
    requires Inv(v, fat, g) && d in g.depth && n != NO_NAME && n != DOTDOT && d < CLUSTER_MAP_SIZE
    requires FirstIsFolder(Tab(v, d), n)
    ensures Target(Tab(v, d), n) in g.depth && Target(Tab(v, d), n) < CLUSTER_MAP_SIZE
    ensures OffersOther(Tab(v, Target(Tab(v, d), n)), n)
  {
    hide DecodeTable, Inv, Target;
    TargetIs(v, fat, g, d, n);
    LoadAllowed(v, fat, g, Request(d, n, NO_EXT, 0, []));
    LiveDirectory(v, fat, g, Target(Tab(v, d), n));
    ParentEntry(v, fat, g, Target(Tab(v, d), n));
    assert Live(Tab(v, Target(Tab(v, d), n))[1]);
  }

  lemma ParentEntry(v: Volume, fat: Fat, g: Shape, d: nat)
    requires Inv(v, fat, g) && d in g.depth
    ensures d < CLUSTER_MAP_SIZE && Live(Tab(v, d)[1])
  {
    hide DecodeTable;
    LiveTable(v, fat, g, d);
    assert HeadOk(Tabs(v), g, d);
  }
}
