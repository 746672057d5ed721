/** Each driver operation does to the abstract tree exactly what the abstract operation says. */
module Refinement {
  import opened Types
  import opened Layout
  import opened Chains
  import opened Operations
  import opened Structure
  import opened Preservation
  import opened Tree

  lemma NodeKept(v: Volume, fat: Fat, v': Volume, fat': Fat, e: Entry)
    requires !IsDir(e) ==>
               var c := FirstCluster(e);
               && c < CLUSTER_MAP_SIZE && Chain(fat', c) == Chain(fat, c)
               && forall x :: x in Chain(fat, c) && x < CLUSTER_MAP_SIZE ==> v'[x] == v[x]
    ensures NodeOf(v', fat', e) == NodeOf(v, fat, e)
  {
    if !IsDir(e) {
      ChainInMap(fat, FirstCluster(e));
      ContentFrame(v, v', Chain(fat, FirstCluster(e)));
    }
  }

  /** A directory's cluster is no part of a file. */
  lemma DirNotInFile(tabs: Tables, fat: Fat, g: Shape, d: nat, q: Place)
    requires Sound(tabs, fat, g) && d in g.depth && IsPlace(tabs, g, q) && !IsDir(EntryAt(tabs, q))
    ensures Terminated(fat, Head(tabs, q)) && d !in Chain(fat, Head(tabs, q))
    ensures forall x :: x in Chain(fat, Head(tabs, q)) ==> x in g.owner
  {
    assert EntryOk(tabs, fat, g, q) && DirOk(tabs, g, d);
    ChainCells(fat, Head(tabs, q));
  }

  /** Clusters owned by entries keep their bytes, apart from the cluster of directory `dir`. */
  ghost predicate DataKept(v: Volume, v': Volume, owner: map<nat, Place>, dir: nat) {
    forall x :: x in owner && x < CLUSTER_MAP_SIZE && x != dir ==> v'[x] == v[x]
  }

  /** The abstract tree changes in one directory, loses `gone` and gains `added`. */
  lemma AbsChanged(v: Volume, fat: Fat, g: Shape, v': Volume, fat': Fat, g': Shape,
                   dir: nat, changed: Directory, gone: set<nat>, added: set<nat>)
    requires dir in g.depth && dir !in gone && added !! g.depth.Keys
    requires g'.depth.Keys == (g.depth.Keys - gone) + added
    requires forall d :: d in g.depth && d !in gone ==>
               DirectoryAt(v', fat', g', d) == if d == dir then changed else DirectoryAt(v, fat, g, d)
    ensures Abs(v', fat', g')
         == Abs(v, fat, g)[dir := changed] - gone + map d | d in added :: DirectoryAt(v', fat', g', d)
  {
    hide DirectoryAt;
  }

  lemma AbsMinus(v: Volume, fat: Fat, g: Shape, v': Volume, fat': Fat, g': Shape, dir: nat, changed: Directory,
                 gone: set<nat>)
    requires dir in g.depth && dir !in gone && g'.depth.Keys == g.depth.Keys - gone
    requires forall d :: d in g.depth && d !in gone ==>
               DirectoryAt(v', fat', g', d) == if d == dir then changed else DirectoryAt(v, fat, g, d)
    ensures Abs(v', fat', g') == Abs(v, fat, g)[dir := changed] - gone
  {
    hide DirectoryAt;
  }

  // ----- additions -----

  lemma AddNodes(v: Volume, fat: Fat, g: Shape, v': Volume, fat': Fat, p: Place, e: Entry, cells: seq<nat>, q: Place)
    requires Sound(Tabs(v), fat, g) && AddStep(Tabs(v), fat, g, Tabs(v'), fat', p, e, cells)
    requires DataKept(v, v', g.owner, p.dir) && IsPlace(Tabs(v), g, q)
    ensures NodeOf(v', fat', EntryAt(Tabs(v), q)) == NodeOf(v, fat, EntryAt(Tabs(v), q))
  {
    hide Tabs, NodeOf, Join, Chain;
    AddPlaces(Tabs(v), fat, g, Tabs(v'), fat', p, e, cells);
    AddEntryOk(Tabs(v), fat, g, Tabs(v'), fat', p, e, cells, q);
    if !IsDir(EntryAt(Tabs(v), q)) { DirNotInFile(Tabs(v), fat, g, p.dir, q); }
    NodeKept(v, fat, v', fat', EntryAt(Tabs(v), q));
  }

  lemma AddDirectory(v: Volume, fat: Fat, g: Shape, v': Volume, fat': Fat, p: Place, e: Entry, cells: seq<nat>, d: nat)
    requires Sound(Tabs(v), fat, g) && AddStep(Tabs(v), fat, g, Tabs(v'), fat', p, e, cells)
    requires DataKept(v, v', g.owner, p.dir) && d in g.depth
    requires forall s :: FIRST_SLOT <= s < TABLE_SIZE && Live(Tab(v, p.dir)[s]) ==> KeyOf(Tab(v, p.dir)[s]) != KeyOf(e)
    ensures d < CLUSTER_MAP_SIZE
    ensures DirectoryAt(v', fat', AddShape(g, p, e, cells), d)
         == if d == p.dir then Plus(DirectoryAt(v, fat, g, d), KeyOf(e), NodeOf(v', fat', e))
             else DirectoryAt(v, fat, g, d)
  {
    hide DecodeTable, NodeOf, KeyOf, Join, Chain;
    var t := Tab(v, d);
    assert DirOk(Tabs(v), g, d);
    forall s | FIRST_SLOT <= s < TABLE_SIZE && Live(t[s]) ensures NodeOf(v', fat', t[s]) == NodeOf(v, fat, t[s]) {
      assert EntryAt(Tabs(v), Place(d, s)) == t[s];
      AddNodes(v, fat, g, v', fat', p, e, cells, Place(d, s));
    }
    assert ParentOf(AddShape(g, p, e, cells), d) == ParentOf(g, d) by { assert d in g.owner ==> d !in cells; }
    if d == p.dir {
      EntriesAdd(v, fat, v', fat', t, p.slot, e, FIRST_SLOT);
      assert Tab(v', d) == Tabs(v')[d];
    } else {
      assert Tabs(v')[d] == Tabs(v)[d];
      EntriesFrame(v, fat, t, v', fat', Tab(v', d), FIRST_SLOT);
    }
  }

  lemma AddKeySet(tabs: Tables, fat: Fat, g: Shape, tabs': Tables, fat': Fat, p: Place, e: Entry, cells: seq<nat>)
    requires AddStep(tabs, fat, g, tabs', fat', p, e, cells)
    ensures p.dir in g.depth && cells != [] && cells[0] !in g.depth
    ensures AddShape(g, p, e, cells).depth.Keys == g.depth.Keys + if IsDir(e) then {cells[0]} else {}
  {
    assert cells[0] in cells;
  }

  /** Adding an entry adds one node to one directory, and for a folder one directory. */
  lemma AddRefines(v: Volume, fat: Fat, g: Shape, v': Volume, fat': Fat, p: Place, e: Entry, cells: seq<nat>)
    requires Sound(Tabs(v), fat, g) && AddStep(Tabs(v), fat, g, Tabs(v'), fat', p, e, cells)
    requires DataKept(v, v', g.owner, p.dir)
    requires forall s :: FIRST_SLOT <= s < TABLE_SIZE && Live(Tab(v, p.dir)[s]) ==> KeyOf(Tab(v, p.dir)[s]) != KeyOf(e)
    ensures p.dir in g.depth && cells != []
    ensures Abs(v', fat', AddShape(g, p, e, cells))
         == Abs(v, fat, g)[p.dir := Plus(DirectoryAt(v, fat, g, p.dir), KeyOf(e), NodeOf(v', fat', e))] - {}
            + map d | d in (if IsDir(e) then {cells[0]} else {}) :: DirectoryAt(v', fat', AddShape(g, p, e, cells), d)
  {
    hide DirectoryAt, Tabs, Tab, Join, NodeOf, KeyOf, Plus, Sound;
    forall d | d in g.depth
      ensures DirectoryAt(v', fat', AddShape(g, p, e, cells), d)
           == if d == p.dir then Plus(DirectoryAt(v, fat, g, d), KeyOf(e), NodeOf(v', fat', e))
               else DirectoryAt(v, fat, g, d)
    {
      AddDirectory(v, fat, g, v', fat', p, e, cells, d);
    }
    AddKeySet(Tabs(v), fat, g, Tabs(v'), fat', p, e, cells);
    AbsChanged(v, fat, g, v', fat', AddShape(g, p, e, cells), p.dir,
               Plus(DirectoryAt(v, fat, g, p.dir), KeyOf(e), NodeOf(v', fat', e)), {},
               if IsDir(e) then {cells[0]} else {});
  }

  // ----- removals -----

  lemma RemoveNodes(v: Volume, fat: Fat, g: Shape, v': Volume, fat': Fat, p: Place, blank: Entry, q: Place)
    requires Sound(Tabs(v), fat, g) && RemoveStep(Tabs(v), fat, g, Tabs(v'), fat', p, blank)
    requires DataKept(v, v', RemoveShape(Tabs(v), fat, g, p).owner, p.dir) && IsPlace(Tabs(v), g, q) && q != p
    ensures NodeOf(v', fat', EntryAt(Tabs(v), q)) == NodeOf(v, fat, EntryAt(Tabs(v), q))
  {
    hide Tabs, NodeOf, Chain;
    RemovePlaces(Tabs(v), fat, g, Tabs(v'), fat', p, blank);
    RemoveEntryOk(Tabs(v), fat, g, Tabs(v'), fat', p, blank, q);
    assert EntryOk(Tabs(v), fat, g, p) && EntryOk(Tabs(v), fat, g, q);
    if !IsDir(EntryAt(Tabs(v), q)) { DirNotInFile(Tabs(v), fat, g, p.dir, q); }
    NodeKept(v, fat, v', fat', EntryAt(Tabs(v), q));
  }

  lemma RemoveDirectory(v: Volume, fat: Fat, g: Shape, v': Volume, fat': Fat, p: Place, blank: Entry, d: nat)
    requires Sound(Tabs(v), fat, g) && RemoveStep(Tabs(v), fat, g, Tabs(v'), fat', p, blank)
    requires DataKept(v, v', RemoveShape(Tabs(v), fat, g, p).owner, p.dir)
    requires d in RemoveShape(Tabs(v), fat, g, p).depth && KeysUnique(Tab(v, p.dir))
    ensures d < CLUSTER_MAP_SIZE
    ensures DirectoryAt(v', fat', RemoveShape(Tabs(v), fat, g, p), d)
         == if d == p.dir then Minus(DirectoryAt(v, fat, g, d), KeyOf(EntryAt(Tabs(v), p)))
             else DirectoryAt(v, fat, g, d)
  {
    hide DecodeTable, NodeOf, KeyOf, Chain, KeysUnique;
    var t, g' := Tab(v, d), RemoveShape(Tabs(v), fat, g, p);
    RemoveSound(Tabs(v), fat, g, Tabs(v'), fat', p, blank);
    assert DirOk(Tabs(v), g, d) && DirOk(Tabs(v'), g', d);
    forall s | FIRST_SLOT <= s < TABLE_SIZE && Live(t[s]) && Place(d, s) != p
      ensures NodeOf(v', fat', t[s]) == NodeOf(v, fat, t[s])
      ensures d == p.dir ==> KeyOf(t[s]) != KeyOf(t[p.slot])
    {
      assert EntryAt(Tabs(v), Place(d, s)) == t[s];
      RemoveNodes(v, fat, g, v', fat', p, blank, Place(d, s));
      if d == p.dir { KeysDiffer(t, s, p.slot); }
    }
    assert ParentOf(g', d) == ParentOf(g, d);
    if d == p.dir {
      EntriesRemove(v, fat, v', fat', t, p.slot, blank, FIRST_SLOT);
      assert Tab(v', d) == Tabs(v')[d];
    } else {
      assert Tabs(v')[d] == Tabs(v)[d];
      EntriesFrame(v, fat, t, v', fat', Tab(v', d), FIRST_SLOT);
    }
  }

  /** Removing an entry removes one node from one directory, and for a folder its directory. */
  lemma RemoveRefines(v: Volume, fat: Fat, g: Shape, v': Volume, fat': Fat, p: Place, blank: Entry)
    requires Sound(Tabs(v), fat, g) && RemoveStep(Tabs(v), fat, g, Tabs(v'), fat', p, blank)
    requires DataKept(v, v', RemoveShape(Tabs(v), fat, g, p).owner, p.dir) && KeysUnique(Tab(v, p.dir))
    ensures p.dir in g.depth
    ensures Abs(v', fat', RemoveShape(Tabs(v), fat, g, p))
         == Abs(v, fat, g)[p.dir := Minus(DirectoryAt(v, fat, g, p.dir), KeyOf(EntryAt(Tabs(v), p)))]
            - (if IsDir(EntryAt(Tabs(v), p)) then {Head(Tabs(v), p) as nat} else {})
  {
    hide DirectoryAt, Tabs, Tab, NodeOf, KeyOf, KeysUnique, Minus, Sound, Chain;
    RemoveKeySet(Tabs(v), fat, g, p);
    var g', e := RemoveShape(Tabs(v), fat, g, p), EntryAt(Tabs(v), p);
    forall d | d in g'.depth
      ensures DirectoryAt(v', fat', g', d)
           == if d == p.dir then Minus(DirectoryAt(v, fat, g, d), KeyOf(e)) else DirectoryAt(v, fat, g, d)
    {
      RemoveDirectory(v, fat, g, v', fat', p, blank, d);
    }
    AbsMinus(v, fat, g, v', fat', g', p.dir, Minus(DirectoryAt(v, fat, g, p.dir), KeyOf(e)),
             if IsDir(e) then {Head(Tabs(v), p)} else {});
  }

  lemma RemoveKeySet(tabs: Tables, fat: Fat, g: Shape, p: Place)
    requires Sound(tabs, fat, g) && IsPlace(tabs, g, p)
    ensures p.dir in g.depth && Head(tabs, p) < CLUSTER_MAP_SIZE
    ensures IsDir(EntryAt(tabs, p)) ==> p.dir != Head(tabs, p) && Head(tabs, p) in g.depth
    ensures RemoveShape(tabs, fat, g, p).depth.Keys ==
            g.depth.Keys - if IsDir(EntryAt(tabs, p)) then {Head(tabs, p) as nat} else {}
  {
    assert EntryOk(tabs, fat, g, p);
    if IsDir(EntryAt(tabs, p)) {
      assert DirOk(tabs, g, Head(tabs, p)) && g.owner[Head(tabs, p)] == p;
    }
  }

  // ----- the four operations -----

  /** The abstract directory of a live one: its lookups agree with the searches of its table. */
  lemma LiveDirectory(v: Volume, fat: Fat, g: Shape, d: nat)
    requires Inv(v, fat, g) && d in g.depth
    ensures d < CLUSTER_MAP_SIZE && KeysUnique(Tab(v, d)) && DeadNameless(Tab(v, d)) && IsDirTable(Tab(v, d))
    ensures Abs(v, fat, g)[d] ==
            Directory(Tab(v, d)[0].name, ParentOf(g, d), EntriesFrom(v, fat, Tab(v, d), FIRST_SLOT))
    ensures Tab(v, d)[0].ext == NO_EXT && IsDir(Tab(v, d)[0]) && FirstCluster(Tab(v, d)[0]) == d
    ensures Tab(v, d)[1].name == DOTDOT && Tab(v, d)[1].ext == NO_EXT && IsDir(Tab(v, d)[1])
    ensures FirstCluster(Tab(v, d)[1]) == ParentOf(g, d) < CLUSTER_MAP_SIZE
  {
    hide DecodeTable, Chain, EntriesFrom;
    LiveTable(v, fat, g, d);
    var tabs := Tabs(v);
    assert DirOk(tabs, g, d) && HeadOk(tabs, g, d);
    if d != ROOT_CLUSTER {
      assert IsPlace(tabs, g, g.owner[d]);
      assert WellFormed(fat, EntryAt(tabs, g.owner[d]));
    }
  }

  lemma WrittenNode(v: Volume, fat: Fat, g: Shape, r: Request, v': Volume, fat': Fat)
    requires Inv(v, fat, g) && Adding(v, fat, g, r) && Added(v, fat, r, v', fat')
    ensures NodeOf(v', fat', AddedEntry(fat, r))
         == if r.bufferSize == 0 then DirNode(AddedCells(fat, r)[0])
             else FileNode(r.bufferSize, Stored(r.buf, r.bufferSize))
  {
    hide DecodeTable, Stored, FilePart, Tabs, Inv, Picks, Admitted, IsDirTable, Content, KeysUnique, FatOn;
    AddedEntryOk(v, fat, g, r);
    var cells := AddedCells(fat, r);
    if r.bufferSize > 0 {
      JoinChain(fat, cells, 0);
      assert cells[0..] == cells && cells[..|cells|] == cells;
      StoredLength(r.buf, r.bufferSize);
      ContentStored(v', r.buf, r.bufferSize, cells, |cells|);
      assert Stored(r.buf, r.bufferSize)[..CLUSTER_SIZE * |cells|] == Stored(r.buf, r.bufferSize);
    }
  }

  lemma NewDirectory(v: Volume, fat: Fat, g: Shape, r: Request, v': Volume, fat': Fat)
    requires Inv(v, fat, g) && Adding(v, fat, g, r) && Added(v, fat, r, v', fat') && r.bufferSize == 0
    ensures var c := AddedCells(fat, r)[0];
            DirectoryAt(v', fat', WriteShape(v, fat, g, r), c) == Directory(r.name, r.parent, map[])
  {
    hide DecodeTable, EntriesFrom, Inv, Join;
    FreshCells(v, fat, g, 1);
    AddedEntryOk(v, fat, g, r);
    LiveTable(v, fat, g, r.parent);
    var c := AddedCells(fat, r)[0];
    assert c in AddedCells(fat, r);
    NewTableOk(r.name, c, r.parent);
    NoEntries(v', fat', Tab(v', c), FIRST_SLOT);
  }

  lemma OwnedKept(v: Volume, fat: Fat, g: Shape, r: Request, v': Volume, fat': Fat)
    requires Inv(v, fat, g) && Adding(v, fat, g, r) && Added(v, fat, r, v', fat')
    ensures DataKept(v, v', g.owner, r.parent)
  {
    hide DecodeTable, FilePart;
    FreshCells(v, fat, g, Needed(r));
    forall x | x in g.owner && x < CLUSTER_MAP_SIZE && x != r.parent ensures v'[x] == v[x] {
      assert Owned(Tabs(v), fat, g, x);
    }
  }

  /** `write` refines its abstract operation, return code included. */
  lemma WriteRefines(v: Volume, fat: Fat, g: Shape, r: Request)
    requires Inv(v, fat, g) && r.parent in g.depth && Proper(r) && CanWrite(v, fat, r)
    ensures WriteSpec(Abs(v, fat, g), r, WritePlan(v, fat, r).code,
                      Abs(Apply(v, WritePlan(v, fat, r).writes), WritePlan(v, fat, r).fat, WriteShape(v, fat, g, r)))
  {
    hide DecodeTable, FolderPlan, FilePlan, Stored, EntriesFrom, Inv, ParentOf;
    LiveDirectory(v, fat, g, r.parent);
    FullExact(v, fat, Tab(v, r.parent));
    FindKeyExact(v, fat, Tab(v, r.parent), r.name, r.ext);
    if Admitted(Tab(v, r.parent), r) {
      AdmittedRefines(v, fat, g, r);
    }
  }

  /** `write` admits a request exactly when the directory has fewer than 62 entries and none of that name. */
  lemma AdmittedExact(v: Volume, fat: Fat, g: Shape, r: Request)
    requires Inv(v, fat, g) && r.parent in g.depth && r.name != NO_NAME
    ensures Admitted(Tab(v, r.parent), r) <==>
              |Abs(v, fat, g)[r.parent].entries| < CAPACITY && Key(r.name, r.ext) !in Abs(v, fat, g)[r.parent].entries
  {
    hide DecodeTable, EntriesFrom, Inv, ParentOf, KeysUnique, DeadNameless;
    LiveDirectory(v, fat, g, r.parent);
    FullExact(v, fat, Tab(v, r.parent));
    FindKeyExact(v, fat, Tab(v, r.parent), r.name, r.ext);
  }

  lemma AdmittedRefines(v: Volume, fat: Fat, g: Shape, r: Request)
    requires Inv(v, fat, g) && Adding(v, fat, g, r)
    ensures var a := Abs(v, fat, g);
            var a' := Abs(Apply(v, WritePlan(v, fat, r).writes), WritePlan(v, fat, r).fat, WriteShape(v, fat, g, r));
            if r.bufferSize == 0 then FreshFolder(a, r, AddedCells(fat, r)[0], a')
            else a' == a[r.parent := Plus(a[r.parent], Key(r.name, r.ext),
                                          FileNode(r.bufferSize, Stored(r.buf, r.bufferSize)))]
  {
    hide DecodeTable, WritePlan, Stored, EntriesFrom, Inv, NodeOf, DirectoryAt, Plus, AddShape, AddStep, Added,
         AddClean, Admitted, Picks, AddedEntry, FatOn, FreeCount;
    var v', fat' := Apply(v, WritePlan(v, fat, r).writes), WritePlan(v, fat, r).fat;
    WriteEffect(v, fat, g, r);
    AddedEntryOk(v, fat, g, r);
    AdmittedAdd(v, fat, g, r, v', fat');
    WrittenNode(v, fat, g, r, v', fat');
    FreshCells(v, fat, g, Needed(r));
    assert AddedCells(fat, r)[0] in AddedCells(fat, r);
    if r.bufferSize == 0 { NewDirectory(v, fat, g, r, v', fat'); }
  }

  lemma AdmittedAdd(v: Volume, fat: Fat, g: Shape, r: Request, v': Volume, fat': Fat)
    requires Inv(v, fat, g) && Adding(v, fat, g, r) && Added(v, fat, r, v', fat')
    ensures Abs(v', fat', WriteShape(v, fat, g, r))
         == Abs(v, fat, g)[r.parent := Plus(DirectoryAt(v, fat, g, r.parent), Key(r.name, r.ext),
                                            NodeOf(v', fat', AddedEntry(fat, r)))] - {}
            + map d | d in (if r.bufferSize == 0 then {AddedCells(fat, r)[0]} else {}) ::
                DirectoryAt(v', fat', WriteShape(v, fat, g, r), d)
  {
    hide DecodeTable, EntriesFrom, NodeOf, DirectoryAt, Plus, AddShape, AddStep, Added, AddClean, Abs, KeysUnique,
         AddedEntry;
    var t, p, e, cells := Tab(v, r.parent), AddedPlace(v, r), AddedEntry(fat, r), AddedCells(fat, r);
    WriteIsAdd(v, fat, g, r, v', fat');
    OwnedKept(v, fat, g, r, v', fat');
    AddedEntryOk(v, fat, g, r);
    forall s | FIRST_SLOT <= s < TABLE_SIZE && Live(t[s]) ensures KeyOf(t[s]) != KeyOf(e) {
      assert !Matches(t[s], r.name, r.ext);
    }
    AddRefines(v, fat, g, v', fat', p, e, cells);
  }

  /** `delete` refines its abstract operation, return code included. */
  lemma DeleteRefines(v: Volume, fat: Fat, g: Shape, r: Request)
    requires Inv(v, fat, g) && r.parent in g.depth && r.name != NO_NAME
    ensures CanDelete(v, fat, r)
    ensures DeleteSpec(Abs(v, fat, g), r, DeletePlan(v, fat, r).code,
                       Abs(Apply(v, DeletePlan(v, fat, r).writes), DeletePlan(v, fat, r).fat,
                           DeleteShape(v, fat, g, r)))
  {
    hide DecodeTable, RemoveFolderPlan, RemoveFilePlan, EntriesFrom, Inv, ParentOf;
    DeleteAllowed(v, fat, g, r);
    LiveDirectory(v, fat, g, r.parent);
    FindKeyExact(v, fat, Tab(v, r.parent), r.name, r.ext);
    var p := RemovedPlace(v, r);
    if p.slot < TABLE_SIZE {
      FoundIsPlace(v, fat, g, r);
      var e := Tab(v, r.parent)[p.slot];
      if IsDir(e) {
        LiveDirectory(v, fat, g, FirstCluster(e));
        NoEntries(v, fat, Tab(v, FirstCluster(e)), FIRST_SLOT);
      }
      if Removing(v, g, r) { RemovingRefines(v, fat, g, r); }
    }
  }

  lemma RemovingRefines(v: Volume, fat: Fat, g: Shape, r: Request)
    requires Inv(v, fat, g) && Removing(v, g, r)
    ensures CanDelete(v, fat, r)
    ensures KeyOf(EntryAt(Tabs(v), RemovedPlace(v, r))) == Key(r.name, r.ext)
    ensures Abs(Apply(v, DeletePlan(v, fat, r).writes), DeletePlan(v, fat, r).fat, DeleteShape(v, fat, g, r))
         == Abs(v, fat, g)[r.parent := Minus(DirectoryAt(v, fat, g, r.parent), Key(r.name, r.ext))]
            - (if IsDir(EntryAt(Tabs(v), RemovedPlace(v, r))) then {Head(Tabs(v), RemovedPlace(v, r)) as nat} else {})
  {
    FoundIsPlace(v, fat, g, r);
    DeleteEffect(v, fat, g, r);
    RemovingMinus(v, fat, g, r, Apply(v, DeletePlan(v, fat, r).writes), DeletePlan(v, fat, r).fat,
                  Blank(EntryAt(Tabs(v), RemovedPlace(v, r))));
  }

  lemma RemovingMinus(v: Volume, fat: Fat, g: Shape, r: Request, v': Volume, fat': Fat, blank: Entry)
    requires Inv(v, fat, g) && Removing(v, g, r) && Removed(v, fat, r, v', fat', blank)
    ensures Abs(v', fat', RemoveShape(Tabs(v), fat, g, RemovedPlace(v, r)))
         == Abs(v, fat, g)[r.parent := Minus(DirectoryAt(v, fat, g, r.parent),
                                             KeyOf(EntryAt(Tabs(v), RemovedPlace(v, r))))]
            - (if IsDir(EntryAt(Tabs(v), RemovedPlace(v, r))) then {Head(Tabs(v), RemovedPlace(v, r)) as nat} else {})
  {
    hide DecodeTable, Abs, DirectoryAt, NodeOf, RemoveShape, RemoveStep, Minus, KeyOf, Removed, Chain;
    LiveDirectory(v, fat, g, r.parent);
    DeleteIsRemove(v, fat, g, r, v', fat', blank);
    RestKept(v, fat, g, r, v', fat', blank);
    RemoveRefines(v, fat, g, v', fat', RemovedPlace(v, r), blank);
  }

  lemma RestKept(v: Volume, fat: Fat, g: Shape, r: Request, v': Volume, fat': Fat, blank: Entry)
    requires Inv(v, fat, g) && Removing(v, g, r) && TakenOut(v, fat, r, v', fat', blank)
    ensures DataKept(v, v', RemoveShape(Tabs(v), fat, g, RemovedPlace(v, r)).owner, r.parent)
  {
    hide DecodeTable, Clear;
    var owner := RemoveShape(Tabs(v), fat, g, RemovedPlace(v, r)).owner;
    forall x | x in owner && x < CLUSTER_MAP_SIZE && x != r.parent ensures v'[x] == v[x] {
      assert Owned(Tabs(v), fat, g, x);
    }
  }

  /** What an entry in use denotes, and which chain a reader of it follows. */
  lemma LiveEntry(v: Volume, fat: Fat, g: Shape, d: nat, s: nat)
    requires Inv(v, fat, g) && d in g.depth && FIRST_SLOT <= s < TABLE_SIZE && d < CLUSTER_MAP_SIZE
    requires Live(Tab(v, d)[s])
    ensures FirstCluster(Tab(v, d)[s]) < CLUSTER_MAP_SIZE && Terminated(fat, FirstCluster(Tab(v, d)[s]))
    ensures !IsDir(Tab(v, d)[s]) ==>
              |Chain(fat, FirstCluster(Tab(v, d)[s]))| == ClustersNeeded(Tab(v, d)[s].filesize)
    ensures IsDir(Tab(v, d)[s]) ==> FirstCluster(Tab(v, d)[s]) as nat in g.depth
  {
    hide DecodeTable, OwnersTrue, TablesOk, Chain;
    var p := Place(d, s);
    assert EntryAt(Tabs(v), p) == Tab(v, d)[s] && IsPlace(Tabs(v), g, p);
    assert EntryOk(Tabs(v), fat, g, p) && WellFormed(fat, EntryAt(Tabs(v), p));
  }

  /** `read` returns what the abstract tree holds, and its chain walk stays in the caller's buffer. */
  lemma ReadRefines(v: Volume, fat: Fat, g: Shape, r: Request)
    requires Inv(v, fat, g) && r.parent in g.depth && r.name != NO_NAME
    ensures CanRead(v, r)
    ensures ReadSpec(Abs(v, fat, g)[r.parent], r, ReadPlan(v, r).code, Content(v, ReadPlan(v, r).cells))
  {
    LiveDirectory(v, fat, g, r.parent);
    var t := Tab(v, r.parent);
    FindKeyExact(v, fat, t, r.name, r.ext);
    FindKeyFromHead(t, r.name, r.ext);
    var s := FindKey(t, r.name, r.ext, FIRST_SLOT);
    if s < TABLE_SIZE { LiveEntry(v, fat, g, r.parent, s); }
    ReadFound(v, r, Abs(v, fat, g)[r.parent]);
  }

  /** The search of `read` against the abstract directory, given where it ends. */
  lemma ReadFound(v: Volume, r: Request, d: Directory)
    requires var t, fat := Tab(v, r.parent), FatOn(v);
             var s := FindKey(t, r.name, r.ext, FIRST_SLOT);
             && IsDirTable(t) && IsDir(t[1]) && t[0].ext == NO_EXT && t[1].ext == NO_EXT && t[1].name == DOTDOT
             && t[0].name == d.name
             && FindKey(t, r.name, r.ext, 0) ==
                (if Matches(t[0], r.name, r.ext) then 0 else if Matches(t[1], r.name, r.ext) then 1 else s)
             && (s < TABLE_SIZE <==> Key(r.name, r.ext) in d.entries)
             && (s < TABLE_SIZE ==>
                   d.entries[Key(r.name, r.ext)] == NodeOf(v, fat, t[s]) && Terminated(fat, FirstCluster(t[s])))
             && (s < TABLE_SIZE && !IsDir(t[s]) ==> |Chain(fat, FirstCluster(t[s]))| == ClustersNeeded(t[s].filesize))
    ensures CanRead(v, r) && ReadSpec(d, r, ReadPlan(v, r).code, Content(v, ReadPlan(v, r).cells))
  {
    hide DecodeTable, DecodeFat, FindKey, Chain, Terminated, ClustersNeeded;
  }

  /** `read_directory` returns the table the abstract tree names. */
  lemma ReadDirectoryRefines(v: Volume, fat: Fat, g: Shape, r: Request)
    requires Inv(v, fat, g) && r.parent in g.depth && r.name != NO_NAME
    ensures CanReadDirectory(v, r)
    ensures ReadDirectorySpec(Abs(v, fat, g)[r.parent], r, ReadDirectoryPlan(v, r).code,
                              if ReadDirectoryPlan(v, r).code == 0 then ReadDirectoryPlan(v, r).cells[0] else 0)
  {
    LiveDirectory(v, fat, g, r.parent);
    var t := Tab(v, r.parent);
    var s := FindName(t, r.name, 0);
    if FIRST_SLOT <= s < TABLE_SIZE { LiveEntry(v, fat, g, r.parent, s); }
    ReadDirectoryFound(v, fat, r, Abs(v, fat, g)[r.parent]);
  }

  /** The first slot in use, from slot 2 on, that has this name. */
  predicate FirstNamed(t: Table, name: Name, s: nat) {
    && FIRST_SLOT <= s < TABLE_SIZE && Live(t[s]) && t[s].name == name
    && forall j :: FIRST_SLOT <= j < s && Live(t[j]) ==> t[j].name != name
  }

  /** Where several entries share a name, `read_directory` takes the first slot: it answers 1 when that is a
      file, and returns that folder's table otherwise. */
  lemma ReadDirectoryFirst(v: Volume, fat: Fat, g: Shape, r: Request, s: nat)
    requires Inv(v, fat, g) && r.parent in g.depth && r.name != NO_NAME && FirstNamed(Tab(v, r.parent), r.name, s)
    requires r.name != Tab(v, r.parent)[0].name && r.name != DOTDOT
    ensures CanReadDirectory(v, r)
    ensures ReadDirectoryPlan(v, r) ==
            if IsDir(Tab(v, r.parent)[s]) then Reading(0, [FirstCluster(Tab(v, r.parent)[s])]) else Reading(1, [])
  {
    hide DecodeTable, Inv, EntriesFrom, KeysUnique;
    LiveDirectory(v, fat, g, r.parent);
    ReadDirectoryRefines(v, fat, g, r);
    var t, k := Tab(v, r.parent), FindName(Tab(v, r.parent), r.name, 0);
    assert k == s by {
      assert t[s].name == r.name && (k < TABLE_SIZE ==> t[k].name == r.name);
    }
  }

  lemma ReadDirectoryFound(v: Volume, fat: Fat, r: Request, d: Directory)
    requires var t := Tab(v, r.parent);
             var s := FindName(t, r.name, 0);
             && r.name != NO_NAME && KeysUnique(t) && DeadNameless(t) && IsDirTable(t) && IsDir(t[1])
             && t[1].name == DOTDOT
             && d == Directory(t[0].name, FirstCluster(t[1]), EntriesFrom(v, fat, t, FIRST_SLOT))
             && FirstCluster(t[0]) == r.parent < CLUSTER_MAP_SIZE && FirstCluster(t[1]) < CLUSTER_MAP_SIZE
             && (FIRST_SLOT <= s < TABLE_SIZE ==> FirstCluster(t[s]) < CLUSTER_MAP_SIZE)
    ensures CanReadDirectory(v, r)
    ensures ReadDirectorySpec(d, r, ReadDirectoryPlan(v, r).code,
                              if ReadDirectoryPlan(v, r).code == 0 then ReadDirectoryPlan(v, r).cells[0] else 0)
  {
    hide DecodeTable, EntriesFrom, NodeOf, KeysUnique, DeadNameless;
    var t := Tab(v, r.parent);
    var s := FindName(t, r.name, 0);
    FindNameExact(v, fat, t, r.name);
    if FIRST_SLOT <= s < TABLE_SIZE { ReadNode(v, fat, t[s]); }
  }

  lemma FindNameExact(v: Volume, fat: Fat, t: Table, name: Name)
    requires name != NO_NAME && KeysUnique(t) && DeadNameless(t)
    ensures var s := FindName(t, name, 0); var m := EntriesFrom(v, fat, t, FIRST_SLOT);
            && (FIRST_SLOT <= s < TABLE_SIZE ==>
                  Key(name, t[s].ext) in m && m[Key(name, t[s].ext)] == NodeOf(v, fat, t[s]))
            && (s == TABLE_SIZE ==> forall ext: Ext :: Key(name, ext) !in m)
  {
    hide NodeOf;
    EntriesExact(v, fat, t, FIRST_SLOT);
    var s := FindName(t, name, 0);
    if FIRST_SLOT <= s < TABLE_SIZE { assert Live(t[s]) && KeyOf(t[s]) == Key(name, t[s].ext); }
  }

  lemma ReadNode(v: Volume, fat: Fat, e: Entry)
    ensures NodeOf(v, fat, e).DirNode? <==> IsDir(e)
    ensures IsDir(e) ==> NodeOf(v, fat, e).dir == FirstCluster(e)
  {
  }

  lemma FindKeyFromHead(t: Table, name: Name, ext: Ext)
    ensures FindKey(t, name, ext, 0) == if Matches(t[0], name, ext) then 0
                                        else if Matches(t[1], name, ext) then 1 else FindKey(t, name, ext, FIRST_SLOT)
  {
    assert FindKey(t, name, ext, 0) == if Matches(t[0], name, ext) then 0 else FindKey(t, name, ext, 1);
  }
}
