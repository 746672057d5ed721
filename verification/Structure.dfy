/** The directory tree laid over the chains: which directories are live, which entry owns which
    cluster, and the invariants the driver keeps about them. */
module Structure {
  import opened Types
  import opened Layout
  import opened Chains
  import opened Operations

  /** A slot of a directory, the directory named by its cluster. */
  datatype Place = Place(dir: nat, slot: nat)

  /** Witness of the tree: the depth of every live directory, and for every allocated cluster above
      the root the slot whose chain it belongs to. */
  datatype Shape = Shape(depth: map<nat, nat>, owner: map<nat, Place>)

  const BLANK_TABLE: Table := DecodeTable(ZERO_CLUSTER)
  type Tables = s: seq<Table> | |s| == 2048 witness seq<Table>(2048, i => BLANK_TABLE)

  /** Every cluster of the disk read as a directory table. */
  function Tabs(v: Volume): Tables { seq<Table>(IMAGE_CLUSTERS, c requires 0 <= c < IMAGE_CLUSTERS => Tab(v, c)) }

  function EntryAt(tabs: Tables, p: Place): Entry {
    if p.dir < IMAGE_CLUSTERS && p.slot < TABLE_SIZE then tabs[p.dir][p.slot] else ZERO_ENTRY
  }

  function Head(tabs: Tables, p: Place): u32 { FirstCluster(EntryAt(tabs, p)) }

  /** `p` is a slot in use of a live directory. */
  predicate IsPlace(tabs: Tables, g: Shape, p: Place) {
    p.dir in g.depth && FIRST_SLOT <= p.slot < TABLE_SIZE && Live(EntryAt(tabs, p))
  }

  // ----- the tree -----

  predicate DirOk(tabs: Tables, g: Shape, d: nat)
    requires d in g.depth
  {
    && ROOT_CLUSTER <= d < CLUSTER_MAP_SIZE
    && (d != ROOT_CLUSTER ==>
          && d in g.owner && IsPlace(tabs, g, g.owner[d])
          && IsDir(EntryAt(tabs, g.owner[d])) && Head(tabs, g.owner[d]) == d
          && g.depth[d] == g.depth[g.owner[d].dir] + 1)
  }

  predicate EntryOk(tabs: Tables, fat: Fat, g: Shape, p: Place) {
    var c := Head(tabs, p);
    && ROOT_CLUSTER < c && Terminated(fat, c)
    && (forall x :: x in Chain(fat, c) ==> x in g.owner && g.owner[x] == p)
    && (IsDir(EntryAt(tabs, p)) ==> c in g.depth && Chain(fat, c) == [c])
  }

  /** The live directories form a tree under the root, and every live entry heads a terminated chain
      that shares no cluster with another. */
  ghost predicate Sound(tabs: Tables, fat: Fat, g: Shape) {
    && ROOT_CLUSTER in g.depth && g.depth[ROOT_CLUSTER] == 0
    && (forall d :: d in g.depth ==> DirOk(tabs, g, d))
    && (forall p :: IsPlace(tabs, g, p) ==> EntryOk(tabs, fat, g, p))
  }

  // ----- what holds between operations, also after one was cut off -----

  predicate Reserved(fat: Fat) {
    fat[0] == CLUSTER_0_VALUE && fat[1] == CLUSTER_1_VALUE && fat[2] == END_OF_FILE
  }

  predicate Owned(tabs: Tables, fat: Fat, g: Shape, c: nat)
    requires c in g.owner
  {
    && ROOT_CLUSTER < c < CLUSTER_MAP_SIZE && IsPlace(tabs, g, g.owner[c])
    && Head(tabs, g.owner[c]) < CLUSTER_MAP_SIZE && c in Chain(fat, Head(tabs, g.owner[c]))
  }

  /** The owner record tells of no more than the chains of live entries. */
  ghost predicate OwnersTrue(tabs: Tables, fat: Fat, g: Shape) {
    forall c :: c in g.owner ==> Owned(tabs, fat, g, c)
  }

  predicate WellFormed(fat: Fat, e: Entry) {
    && e.name != NO_NAME
    && (IsDir(e) ==> e.ext == NO_EXT && e.filesize == 0)
    && (!IsDir(e) ==> e.filesize > 0 && FirstCluster(e) < CLUSTER_MAP_SIZE
                      && |Chain(fat, FirstCluster(e))| == ClustersNeeded(e.filesize))
  }

  ghost predicate EntriesWellFormed(tabs: Tables, fat: Fat, g: Shape) {
    forall p :: IsPlace(tabs, g, p) ==> WellFormed(fat, EntryAt(tabs, p))
  }

  predicate DeadNameless(t: Table) {
    forall s :: FIRST_SLOT <= s < TABLE_SIZE && !Live(t[s]) ==> t[s].name == NO_NAME
  }

  predicate KeysUnique(t: Table) {
    forall s, s' :: FIRST_SLOT <= s < s' < TABLE_SIZE && Live(t[s]) && Live(t[s']) ==>
      !Matches(t[s], t[s'].name, t[s'].ext)
  }

  function ParentOf(g: Shape, d: nat): nat {
    if d != ROOT_CLUSTER && d in g.owner then g.owner[d].dir else ROOT_CLUSTER
  }

  /** Entry 0 is the parent's entry for this directory and entry 1 leads back to the parent. */
  predicate HeadOk(tabs: Tables, g: Shape, d: nat)
    requires d < CLUSTER_MAP_SIZE
  {
    && tabs[d][0] == (if d != ROOT_CLUSTER && d in g.owner then EntryAt(tabs, g.owner[d])
                      else DirEntry(ROOT_NAME, ROOT_CLUSTER))
    && ParentOf(g, d) < CLUSTER_MAP_SIZE
    && tabs[d][1] == DirEntry(DOTDOT, ParentOf(g, d))
  }

  predicate TableOk(tabs: Tables, g: Shape, d: nat) {
    d < CLUSTER_MAP_SIZE && DeadNameless(tabs[d]) && KeysUnique(tabs[d]) && HeadOk(tabs, g, d)
  }

  ghost predicate TablesOk(tabs: Tables, g: Shape) {
    forall d :: d in g.depth ==> TableOk(tabs, g, d)
  }

  predicate AllDead(t: Table) {
    forall s :: 0 <= s < TABLE_SIZE ==> !Live(t[s])
  }

  ghost predicate Orderly(tabs: Tables, fat: Fat, g: Shape) {
    && Sound(tabs, fat, g) && Reserved(fat) && OwnersTrue(tabs, fat, g)
    && EntriesWellFormed(tabs, fat, g) && TablesOk(tabs, g)
  }

  /** The invariant of the driver: the disk `v` and the cached table `fat` between operations. It is
      all the operations need, and a cut-off operation keeps it but for one case. */
  ghost predicate Inv(v: Volume, fat: Fat, g: Shape) {
    fat == FatOn(v) && Signed(v) && Orderly(Tabs(v), fat, g)
  }

  // ----- what more holds as long as no operation was cut off -----

  /** Cluster `c` is used and belongs to no entry. */
  predicate Leaked(fat: Fat, g: Shape, c: nat) {
    ROOT_CLUSTER < c < CLUSTER_MAP_SIZE && fat[c] != EMPTY_ENTRY && c !in g.owner
  }

  /** Every used cluster belongs to an entry. */
  predicate NoLeak(fat: Fat, g: Shape) {
    forall c :: ROOT_CLUSTER < c < CLUSTER_MAP_SIZE && fat[c] != EMPTY_ENTRY ==> c in g.owner
  }

  /** A free cluster, read as a table, shows no entry in use. */
  predicate FreeDead(tabs: Tables, fat: Fat) {
    forall c :: ROOT_CLUSTER < c < CLUSTER_MAP_SIZE && fat[c] == EMPTY_ENTRY ==> AllDead(tabs[c])
  }

  // ----- adding an entry -----

  /** `e` is put into the dead slot `p`, heading the fresh chain `cells`; a new directory has no children. */
  ghost predicate AddStep(tabs: Tables, fat: Fat, g: Shape, tabs': Tables, fat': Fat, p: Place, e: Entry,
                          cells: seq<nat>) {
    && p.dir in g.depth && p.dir < CLUSTER_MAP_SIZE && FIRST_SLOT <= p.slot < TABLE_SIZE && !Live(tabs[p.dir][p.slot])
    && Live(e) && cells != [] && FirstCluster(e) == cells[0] && (IsDir(e) ==> |cells| == 1)
    && Free(fat, cells) && (forall x :: x in cells ==> ROOT_CLUSTER < x && x !in g.owner && x !in g.depth)
    && fat' == Join(fat, cells)
    && tabs'[p.dir] == tabs[p.dir][p.slot := e]
    && (forall d :: d in g.depth && d != p.dir && d < CLUSTER_MAP_SIZE ==> tabs'[d] == tabs[d])
    && (IsDir(e) ==> NoChildren(tabs'[cells[0]]))
  }

  function AddShape(g: Shape, p: Place, e: Entry, cells: seq<nat>): Shape
    requires p.dir in g.depth && cells != []
  {
    Shape(if IsDir(e) then g.depth[cells[0] := g.depth[p.dir] + 1] else g.depth,
          g.owner + map x | x in cells :: p)
  }

  lemma AddPlaces(tabs: Tables, fat: Fat, g: Shape, tabs': Tables, fat': Fat, p: Place, e: Entry, cells: seq<nat>)
    requires Sound(tabs, fat, g) && AddStep(tabs, fat, g, tabs', fat', p, e, cells)
    ensures forall q :: IsPlace(tabs, g, q) ==> q != p && EntryAt(tabs', q) == EntryAt(tabs, q)
    ensures EntryAt(tabs', p) == e
    ensures forall q :: IsPlace(tabs', AddShape(g, p, e, cells), q) <==> IsPlace(tabs, g, q) || q == p
  {
    var g' := AddShape(g, p, e, cells);
    forall q: Place | q.dir in g.depth && q != p ensures EntryAt(tabs', q) == EntryAt(tabs, q) {
      assert DirOk(tabs, g, q.dir);
    }
    forall q | IsPlace(tabs', g', q) && q != p ensures IsPlace(tabs, g, q) {
      if q.dir !in g.depth { assert false; }
    }
  }

  lemma AddSound(tabs: Tables, fat: Fat, g: Shape, tabs': Tables, fat': Fat, p: Place, e: Entry, cells: seq<nat>)
    requires Sound(tabs, fat, g) && AddStep(tabs, fat, g, tabs', fat', p, e, cells)
    ensures Sound(tabs', fat', AddShape(g, p, e, cells))
  {
    var g' := AddShape(g, p, e, cells);
    AddPlaces(tabs, fat, g, tabs', fat', p, e, cells);
    forall d | d in g'.depth ensures DirOk(tabs', g', d) {
      if d in g.depth {
        assert DirOk(tabs, g, d);
      } else {
        assert d == cells[0] && d in cells && g'.owner[d] == p;
      }
    }
    forall q | IsPlace(tabs', g', q) ensures EntryOk(tabs', fat', g', q) {
      if q == p {
        JoinChain(fat, cells, 0);
        assert cells[0..] == cells && cells[0] in cells;
      } else {
        AddEntryOk(tabs, fat, g, tabs', fat', p, e, cells, q);
      }
    }
  }

  lemma AddEntryOk(tabs: Tables, fat: Fat, g: Shape, tabs': Tables, fat': Fat, p: Place, e: Entry, cells: seq<nat>,
                   q: Place)
    requires Sound(tabs, fat, g) && AddStep(tabs, fat, g, tabs', fat', p, e, cells)
    requires IsPlace(tabs, g, q)
    ensures EntryOk(tabs', fat', AddShape(g, p, e, cells), q)
    ensures Head(tabs', q) < CLUSTER_MAP_SIZE && Chain(fat', Head(tabs', q)) == Chain(fat, Head(tabs, q))
  {
    AddPlaces(tabs, fat, g, tabs', fat', p, e, cells);
    assert EntryOk(tabs, fat, g, q);
    var c := Head(tabs, q);
    ChainCells(fat, c);
    forall x | x in Chain(fat, c) ensures fat'[x] == fat[x] {
      JoinOutside(fat, cells, x);
    }
    ChainFrame(fat, fat', c);
  }

  /** What more the added entry must be for nothing but itself to change. */
  ghost predicate AddClean(tabs: Tables, fat: Fat, tabs': Tables, fat': Fat, p: Place, e: Entry, cells: seq<nat>)
    requires p.dir < IMAGE_CLUSTERS && cells != []
  {
    && WellFormed(fat', e)
    && (forall s :: FIRST_SLOT <= s < TABLE_SIZE && Live(tabs[p.dir][s]) ==> !Matches(tabs[p.dir][s], e.name, e.ext))
    && p.slot >= FIRST_SLOT
    && (IsDir(e) ==> cells[0] < CLUSTER_MAP_SIZE && e == DirEntry(e.name, cells[0])
                     && tabs'[cells[0]] == NewTable(e.name, cells[0], p.dir))
    && (forall c :: ROOT_CLUSTER < c < CLUSTER_MAP_SIZE && c !in cells && fat[c] == EMPTY_ENTRY ==> tabs'[c] == tabs[c])
  }

  lemma AddOrderly(tabs: Tables, fat: Fat, g: Shape, tabs': Tables, fat': Fat, p: Place, e: Entry, cells: seq<nat>)
    requires Orderly(tabs, fat, g) && AddStep(tabs, fat, g, tabs', fat', p, e, cells)
    requires AddClean(tabs, fat, tabs', fat', p, e, cells)
    ensures Orderly(tabs', fat', AddShape(g, p, e, cells))
  {
    var g' := AddShape(g, p, e, cells);
    AddSound(tabs, fat, g, tabs', fat', p, e, cells);
    AddPlaces(tabs, fat, g, tabs', fat', p, e, cells);
    JoinUses(fat, cells);
    AddOwners(tabs, fat, g, tabs', fat', p, e, cells);
    forall q | IsPlace(tabs', g', q) ensures WellFormed(fat', EntryAt(tabs', q)) {
      if q != p {
        AddEntryOk(tabs, fat, g, tabs', fat', p, e, cells, q);
        assert WellFormed(fat, EntryAt(tabs, q));
      }
    }
    forall d | d in g'.depth ensures TableOk(tabs', g', d) {
      AddTable(tabs, fat, g, tabs', fat', p, e, cells, d);
    }
  }

  /** Joining uses exactly the joined cells. */
  lemma JoinUses(fat: Fat, cells: seq<nat>)
    requires Free(fat, cells)
    ensures forall x :: 0 <= x < CLUSTER_MAP_SIZE && x in cells ==> Join(fat, cells)[x] != EMPTY_ENTRY
    ensures forall x :: 0 <= x < CLUSTER_MAP_SIZE && x !in cells ==> Join(fat, cells)[x] == fat[x]
  {
    forall x | 0 <= x < CLUSTER_MAP_SIZE ensures x in cells ==> Join(fat, cells)[x] != EMPTY_ENTRY
      ensures x !in cells ==> Join(fat, cells)[x] == fat[x]
    {
      if x in cells {
        var i :| 0 <= i < |cells| && cells[i] == x;
        JoinAt(fat, cells, i);
      } else {
        JoinOutside(fat, cells, x);
      }
    }
  }

  /** An added entry leaks nothing and leaves the free clusters alone. */
  lemma AddTidy(tabs: Tables, fat: Fat, g: Shape, tabs': Tables, fat': Fat, p: Place, e: Entry, cells: seq<nat>)
    requires Free(fat, cells) && cells != [] && p.dir in g.depth && p.dir < CLUSTER_MAP_SIZE && fat' == Join(fat, cells)
    requires AddClean(tabs, fat, tabs', fat', p, e, cells)
    ensures NoLeak(fat, g) ==> NoLeak(fat', AddShape(g, p, e, cells))
    ensures FreeDead(tabs, fat) ==> FreeDead(tabs', fat')
  {
    JoinUses(fat, cells);
  }

  lemma AddOwners(tabs: Tables, fat: Fat, g: Shape, tabs': Tables, fat': Fat, p: Place, e: Entry, cells: seq<nat>)
    requires Orderly(tabs, fat, g) && AddStep(tabs, fat, g, tabs', fat', p, e, cells)
    ensures OwnersTrue(tabs', fat', AddShape(g, p, e, cells))
  {
    var g' := AddShape(g, p, e, cells);
    AddPlaces(tabs, fat, g, tabs', fat', p, e, cells);
    forall x | x in g'.owner ensures Owned(tabs', fat', g', x) {
      if x in cells {
        JoinChain(fat, cells, 0);
        assert cells[0..] == cells && g'.owner[x] == p;
      } else {
        assert Owned(tabs, fat, g, x);
        AddEntryOk(tabs, fat, g, tabs', fat', p, e, cells, g.owner[x]);
      }
    }
  }

  lemma AddTable(tabs: Tables, fat: Fat, g: Shape, tabs': Tables, fat': Fat, p: Place, e: Entry, cells: seq<nat>,
                 d: nat)
    requires Orderly(tabs, fat, g) && AddStep(tabs, fat, g, tabs', fat', p, e, cells)
    requires AddClean(tabs, fat, tabs', fat', p, e, cells)
    requires Sound(tabs', fat', AddShape(g, p, e, cells)) && d in AddShape(g, p, e, cells).depth
    ensures TableOk(tabs', AddShape(g, p, e, cells), d)
  {
    hide DeadNameless, KeysUnique, Chain, Join, OwnersTrue, EntriesWellFormed;
    var g' := AddShape(g, p, e, cells);
    AddPlaces(tabs, fat, g, tabs', fat', p, e, cells);
    assert DirOk(tabs', g', d);
    if d in g.depth {
      assert DirOk(tabs, g, d) && TableOk(tabs, g, d);
      assert d != p.dir ==> tabs'[d] == tabs[d];
      assert HeadOk(tabs', g', d);
      if d == p.dir { AddKeys(tabs[d], p.slot, e); }
    } else {
      assert d == cells[0] && d in cells && g'.owner[d] == p;
      NewTableOk(e.name, d, p.dir);
    }
  }

  lemma AddKeys(t: Table, s: nat, e: Entry)
    requires FIRST_SLOT <= s < TABLE_SIZE && Live(e) && DeadNameless(t) && KeysUnique(t)
    requires forall k :: FIRST_SLOT <= k < TABLE_SIZE && Live(t[k]) ==> !Matches(t[k], e.name, e.ext)
    ensures DeadNameless(t[s := e]) && KeysUnique(t[s := e])
  {
  }

  lemma NewTableOk(name: Name, self: u32, parent: u32)
    ensures NewTable(name, self, parent)[0] == DirEntry(name, self)
    ensures NewTable(name, self, parent)[1] == DirEntry(DOTDOT, parent)
    ensures NoChildren(NewTable(name, self, parent))
    ensures DeadNameless(NewTable(name, self, parent)) && KeysUnique(NewTable(name, self, parent))
  {
    assert forall s :: FIRST_SLOT <= s < TABLE_SIZE ==> NewTable(name, self, parent)[s] == ZERO_ENTRY;
  }

  // ----- removing an entry -----

  /** The live entry `p`, childless if a directory, gives way to the dead entry `blank`. */
  ghost predicate RemoveStep(tabs: Tables, fat: Fat, g: Shape, tabs': Tables, fat': Fat, p: Place, blank: Entry) {
    && IsPlace(tabs, g, p) && p.dir < CLUSTER_MAP_SIZE && Head(tabs, p) < CLUSTER_MAP_SIZE && !Live(blank)
    && (IsDir(EntryAt(tabs, p)) ==> NoChildren(tabs[Head(tabs, p)]))
    && tabs'[p.dir] == tabs[p.dir][p.slot := blank]
    && (forall d :: d in RemoveShape(tabs, fat, g, p).depth && d != p.dir && d < CLUSTER_MAP_SIZE ==>
          tabs'[d] == tabs[d])
    && (forall x :: x in RemoveShape(tabs, fat, g, p).owner && x < CLUSTER_MAP_SIZE ==> fat'[x] == fat[x])
  }

  function RemoveShape(tabs: Tables, fat: Fat, g: Shape, p: Place): Shape
    requires Head(tabs, p) < CLUSTER_MAP_SIZE
  {
    var c := Head(tabs, p);
    Shape(if IsDir(EntryAt(tabs, p)) then g.depth - {c} else g.depth,
          g.owner - set x | x in Chain(fat, c))
  }

  lemma RemovePlaces(tabs: Tables, fat: Fat, g: Shape, tabs': Tables, fat': Fat, p: Place, blank: Entry)
    requires Sound(tabs, fat, g) && RemoveStep(tabs, fat, g, tabs', fat', p, blank)
    ensures forall q :: IsPlace(tabs', RemoveShape(tabs, fat, g, p), q) <==> IsPlace(tabs, g, q) && q != p
    ensures forall q :: IsPlace(tabs, g, q) && q != p ==> EntryAt(tabs', q) == EntryAt(tabs, q)
  {
    var g' := RemoveShape(tabs, fat, g, p);
    assert EntryOk(tabs, fat, g, p);
    assert p.dir in g'.depth by {
      if IsDir(EntryAt(tabs, p)) {
        assert DirOk(tabs, g, Head(tabs, p));
      }
    }
    forall q: Place | q.dir in g'.depth && q != p ensures EntryAt(tabs', q) == EntryAt(tabs, q) {
      assert DirOk(tabs, g, q.dir);
    }
  }

  lemma RemoveSound(tabs: Tables, fat: Fat, g: Shape, tabs': Tables, fat': Fat, p: Place, blank: Entry)
    requires Sound(tabs, fat, g) && RemoveStep(tabs, fat, g, tabs', fat', p, blank)
    ensures Sound(tabs', fat', RemoveShape(tabs, fat, g, p))
  {
    var g' := RemoveShape(tabs, fat, g, p);
    RemovePlaces(tabs, fat, g, tabs', fat', p, blank);
    assert EntryOk(tabs, fat, g, p);
    forall d | d in g'.depth ensures DirOk(tabs', g', d) {
      assert DirOk(tabs, g, d);
      if d != ROOT_CLUSTER { assert DirOk(tabs, g, g.owner[d].dir); }
    }
    forall q | IsPlace(tabs', g', q) ensures EntryOk(tabs', fat', g', q) {
      RemoveEntryOk(tabs, fat, g, tabs', fat', p, blank, q);
    }
  }

  lemma RemoveEntryOk(tabs: Tables, fat: Fat, g: Shape, tabs': Tables, fat': Fat, p: Place, blank: Entry, q: Place)
    requires Sound(tabs, fat, g) && RemoveStep(tabs, fat, g, tabs', fat', p, blank)
    requires IsPlace(tabs, g, q) && q != p
    ensures EntryOk(tabs', fat', RemoveShape(tabs, fat, g, p), q)
    ensures Head(tabs', q) < CLUSTER_MAP_SIZE && Chain(fat', Head(tabs', q)) == Chain(fat, Head(tabs, q))
  {
    RemovePlaces(tabs, fat, g, tabs', fat', p, blank);
    assert EntryOk(tabs, fat, g, p) && EntryOk(tabs, fat, g, q);
    var c := Head(tabs, q);
    ChainCells(fat, c);
    assert c in Chain(fat, c);
    ChainFrame(fat, fat', c);
  }

  ghost predicate RemoveClean(tabs: Tables, fat: Fat, tabs': Tables, fat': Fat, p: Place, blank: Entry)
    requires Head(tabs, p) < CLUSTER_MAP_SIZE
  {
    var cells := Chain(fat, Head(tabs, p));
    && blank.name == NO_NAME
    && InMap(cells) && fat' == Clear(fat, cells)
    && (forall c :: c in cells && c < CLUSTER_MAP_SIZE ==> AllDead(tabs'[c]))
    && (forall c :: ROOT_CLUSTER < c < CLUSTER_MAP_SIZE && c !in cells && fat[c] == EMPTY_ENTRY ==> tabs'[c] == tabs[c])
  }

  /** A removed entry leaks nothing once its chain is cleared, and its clusters show no entry. */
  lemma RemoveTidy(tabs: Tables, fat: Fat, g: Shape, tabs': Tables, fat': Fat, p: Place, blank: Entry)
    requires Head(tabs, p) < CLUSTER_MAP_SIZE && RemoveClean(tabs, fat, tabs', fat', p, blank)
    ensures NoLeak(fat, g) ==> NoLeak(fat', RemoveShape(tabs, fat, g, p))
    ensures FreeDead(tabs, fat) ==> FreeDead(tabs', fat')
  {
    ClearAt(fat, Chain(fat, Head(tabs, p)));
  }

  /** Taking an entry out of its directory keeps everything in order, whatever becomes of its cells. */
  lemma RemoveOrderly(tabs: Tables, fat: Fat, g: Shape, tabs': Tables, fat': Fat, p: Place, blank: Entry)
    requires Orderly(tabs, fat, g) && RemoveStep(tabs, fat, g, tabs', fat', p, blank)
    requires blank.name == NO_NAME && Reserved(fat')
    ensures Orderly(tabs', fat', RemoveShape(tabs, fat, g, p))
  {
    var g' := RemoveShape(tabs, fat, g, p);
    RemoveSound(tabs, fat, g, tabs', fat', p, blank);
    RemovePlaces(tabs, fat, g, tabs', fat', p, blank);
    forall x | x in g'.owner ensures Owned(tabs', fat', g', x) {
      assert Owned(tabs, fat, g, x);
      RemoveEntryOk(tabs, fat, g, tabs', fat', p, blank, g.owner[x]);
    }
    forall q | IsPlace(tabs', g', q) ensures WellFormed(fat', EntryAt(tabs', q)) {
      RemoveEntryOk(tabs, fat, g, tabs', fat', p, blank, q);
      assert WellFormed(fat, EntryAt(tabs, q));
    }
    forall d | d in g'.depth ensures TableOk(tabs', g', d) {
      RemoveTable(tabs, fat, g, tabs', fat', p, blank, d);
    }
  }

  lemma RemoveTable(tabs: Tables, fat: Fat, g: Shape, tabs': Tables, fat': Fat, p: Place, blank: Entry, d: nat)
    requires Orderly(tabs, fat, g) && RemoveStep(tabs, fat, g, tabs', fat', p, blank) && blank.name == NO_NAME
    requires Sound(tabs', fat', RemoveShape(tabs, fat, g, p)) && d in RemoveShape(tabs, fat, g, p).depth
    ensures TableOk(tabs', RemoveShape(tabs, fat, g, p), d)
  {
    hide DeadNameless, KeysUnique, Chain, OwnersTrue, EntriesWellFormed, Reserved, EntryOk;
    var g' := RemoveShape(tabs, fat, g, p);
    assert DirOk(tabs, g, d) && DirOk(tabs', g', d) && TableOk(tabs, g, d);
    RemovePlaces(tabs, fat, g, tabs', fat', p, blank);
    if d == p.dir {
      RemoveKeys(tabs[d], p.slot, blank);
    } else {
      assert tabs'[d] == tabs[d];
    }
    assert d != ROOT_CLUSTER ==> g'.owner[d] == g.owner[d];
    assert HeadOk(tabs', g', d);
  }

  lemma RemoveKeys(t: Table, s: nat, blank: Entry)
    requires FIRST_SLOT <= s < TABLE_SIZE && !Live(blank) && blank.name == NO_NAME
    requires DeadNameless(t) && KeysUnique(t)
    ensures DeadNameless(t[s := blank]) && KeysUnique(t[s := blank])
  {
  }

  /** Disk changes outside live directories and owned cells do not matter. */
  lemma SoundFrame(tabs: Tables, fat: Fat, g: Shape, tabs': Tables, fat': Fat)
    requires Sound(tabs, fat, g)
    requires forall d :: d in g.depth && d < CLUSTER_MAP_SIZE ==> tabs'[d] == tabs[d]
    requires forall x :: x in g.owner && x < CLUSTER_MAP_SIZE ==> fat'[x] == fat[x]
    ensures Sound(tabs', fat', g)
  {
    forall p: Place | p.dir in g.depth ensures EntryAt(tabs', p) == EntryAt(tabs, p) {
      assert DirOk(tabs, g, p.dir);
    }
    forall d | d in g.depth ensures DirOk(tabs', g, d) {
      assert DirOk(tabs, g, d);
    }
    forall p | IsPlace(tabs', g, p) ensures EntryOk(tabs', fat', g, p) {
      assert EntryOk(tabs, fat, g, p);
      ChainCells(fat, Head(tabs, p));
      ChainFrame(fat, fat', Head(tabs, p));
    }
  }

  /** Nor do they matter to the rest of the invariant. */
  lemma OrderlyFrame(tabs: Tables, fat: Fat, g: Shape, tabs': Tables, fat': Fat)
    requires Orderly(tabs, fat, g) && Reserved(fat')
    requires forall d :: d in g.depth && d < CLUSTER_MAP_SIZE ==> tabs'[d] == tabs[d]
    requires forall x :: x in g.owner && x < CLUSTER_MAP_SIZE ==> fat'[x] == fat[x]
    ensures Orderly(tabs', fat', g)
  {
    hide EntryOk, DirOk, WellFormed, Owned, TableOk, Reserved, IsPlace;
    SoundFrame(tabs, fat, g, tabs', fat');
    forall p | IsPlace(tabs', g, p) ensures WellFormed(fat', EntryAt(tabs', p)) {
      PlaceFrame(tabs, fat, g, tabs', fat', p);
      assert WellFormed(fat, EntryAt(tabs, p));
      WellFormedFrame(fat, fat', EntryAt(tabs, p));
    }
    forall x | x in g.owner ensures Owned(tabs', fat', g, x) {
      assert Owned(tabs, fat, g, x);
      OwnedFrame(tabs, fat, g, tabs', fat', x);
    }
    forall d | d in g.depth ensures TableOk(tabs', g, d) {
      assert TableOk(tabs, g, d);
      TableFrame(tabs, fat, g, tabs', d);
    }
  }

  /** A live entry stays where it is, with its chain. */
  lemma PlaceFrame(tabs: Tables, fat: Fat, g: Shape, tabs': Tables, fat': Fat, p: Place)
    requires Sound(tabs, fat, g) && (IsPlace(tabs, g, p) || IsPlace(tabs', g, p))
    requires forall d :: d in g.depth && d < CLUSTER_MAP_SIZE ==> tabs'[d] == tabs[d]
    requires forall x :: x in g.owner && x < CLUSTER_MAP_SIZE ==> fat'[x] == fat[x]
    ensures IsPlace(tabs, g, p) && IsPlace(tabs', g, p) && EntryAt(tabs', p) == EntryAt(tabs, p)
    ensures Head(tabs, p) < CLUSTER_MAP_SIZE && Chain(fat', Head(tabs, p)) == Chain(fat, Head(tabs, p))
  {
    assert DirOk(tabs, g, p.dir);
    assert EntryOk(tabs, fat, g, p);
    ChainCells(fat, Head(tabs, p));
    ChainFrame(fat, fat', Head(tabs, p));
  }

  lemma WellFormedFrame(fat: Fat, fat': Fat, e: Entry)
    requires WellFormed(fat, e) && FirstCluster(e) < CLUSTER_MAP_SIZE
    requires Chain(fat', FirstCluster(e)) == Chain(fat, FirstCluster(e))
    ensures WellFormed(fat', e)
  {
  }

  lemma OwnedFrame(tabs: Tables, fat: Fat, g: Shape, tabs': Tables, fat': Fat, x: nat)
    requires Sound(tabs, fat, g) && x in g.owner && Owned(tabs, fat, g, x)
    requires forall d :: d in g.depth && d < CLUSTER_MAP_SIZE ==> tabs'[d] == tabs[d]
    requires forall x :: x in g.owner && x < CLUSTER_MAP_SIZE ==> fat'[x] == fat[x]
    ensures Owned(tabs', fat', g, x)
  {
    hide Sound, IsPlace;
    PlaceFrame(tabs, fat, g, tabs', fat', g.owner[x]);
  }

  lemma TableFrame(tabs: Tables, fat: Fat, g: Shape, tabs': Tables, d: nat)
    requires Sound(tabs, fat, g) && d in g.depth && TableOk(tabs, g, d)
    requires forall d :: d in g.depth && d < CLUSTER_MAP_SIZE ==> tabs'[d] == tabs[d]
    ensures TableOk(tabs', g, d)
  {
    hide EntryOk, DeadNameless, KeysUnique;
    assert DirOk(tabs, g, d);
    assert d != ROOT_CLUSTER ==> DirOk(tabs, g, g.owner[d].dir);
  }
}
