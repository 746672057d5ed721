/** What each driver operation computes: a return code and the ordered list of clusters it writes,
    as functions of the disk, the cached allocation table and the request. The driver class is
    proved to perform exactly these writes; the invariants are proved about them. */
module Operations {
  import opened Types
  import opened Layout
  import opened Chains

  type ClusterNo = n: int | 0 <= n < 2048

  datatype Request = Request(parent: ClusterNo, name: Name, ext: Ext, bufferSize: u32, buf: seq<byte>)

  datatype Update = Put(cluster: ClusterNo, content: Cluster)

  /** Outcome of a modifying operation; `fat` is the cached table and `dir` the directory buffer it leaves. */
  datatype Plan = Plan(code: int, writes: seq<Update>, fat: Fat, dir: Table)

  const DOTDOT: Name := ['.' as int, '.' as int, 0, 0, 0, 0, 0, 0]
  const ROOT_NAME: Name := ['r' as int, 'o' as int, 'o' as int, 't' as int, 0, 0, 0, 0]

  function Tab(v: Volume, d: ClusterNo): Table { DecodeTable(v[d]) }

  function FatOn(v: Volume): Fat { DecodeFat(v[FAT_CLUSTER]) }

  /** The disk after the writes `ws`, done in order. */
  function Apply(v: Volume, ws: seq<Update>): Volume
  {
    if ws == [] then v
    else
      var last := ws[|ws| - 1];
      Apply(v, ws[..|ws| - 1])[last.cluster := last.content]
  }

  lemma ApplyAppend(v: Volume, ws: seq<Update>, w: Update)
    ensures Apply(v, ws + [w]) == Apply(v, ws)[w.cluster := w.content]
  {
    assert (ws + [w])[..|ws|] == ws;
  }

  lemma {:induction false} ApplyConcat(v: Volume, ws: seq<Update>, more: seq<Update>)
    ensures Apply(v, ws + more) == Apply(Apply(v, ws), more)
  {
    if more == [] {
      assert ws + more == ws;
    } else {
      var rest, last := more[..|more| - 1], more[|more| - 1];
      ApplyConcat(v, ws, rest);
      assert ws + more == ws + rest + [last];
      ApplyAppend(v, ws + rest, last);
    }
  }

  // ----- searches in one directory table -----

  /** First slot from `i` on that is not in use, or 64. */
  function FirstDead(t: Table, i: nat): (s: nat)
    requires i <= TABLE_SIZE
    ensures i <= s <= TABLE_SIZE
    ensures forall k :: i <= k < s ==> Live(t[k])
    ensures s < TABLE_SIZE ==> !Live(t[s])
    decreases TABLE_SIZE - i
  {
    if i == TABLE_SIZE || !Live(t[i]) then i else FirstDead(t, i + 1)
  }

  /** First slot from `i` on with this name and extension, used or not, or 64. */
  function FindKey(t: Table, name: Name, ext: Ext, i: nat): (s: nat)
    requires i <= TABLE_SIZE
    ensures i <= s <= TABLE_SIZE
    ensures forall k :: i <= k < s ==> !Matches(t[k], name, ext)
    ensures s < TABLE_SIZE ==> Matches(t[s], name, ext)
    decreases TABLE_SIZE - i
  {
    if i == TABLE_SIZE || Matches(t[i], name, ext) then i else FindKey(t, name, ext, i + 1)
  }

  /** First slot from `i` on with this name, whatever its extension, or 64. */
  function FindName(t: Table, name: Name, i: nat): (s: nat)
    requires i <= TABLE_SIZE
    ensures i <= s <= TABLE_SIZE
    ensures forall k :: i <= k < s ==> t[k].name != name
    ensures s < TABLE_SIZE ==> t[s].name == name
    decreases TABLE_SIZE - i
  {
    if i == TABLE_SIZE || t[i].name == name then i else FindName(t, name, i + 1)
  }

  // ----- file contents -----

  function ClustersNeeded(size: nat): nat {
    size / CLUSTER_SIZE + if size % CLUSTER_SIZE != 0 then 1 else 0
  }

  predicate Buffered(buf: seq<byte>, size: nat) {
    CLUSTER_SIZE <= |buf| && size <= |buf|
  }

  /** What the driver stores in the `k`-th cluster of a file: the first cluster is copied whole, and
      the last of several only gets the `size % CLUSTER_SIZE` remaining bytes. */
  function FilePart(buf: seq<byte>, size: nat, k: nat): Cluster
    requires Buffered(buf, size) && k < ClustersNeeded(size)
  {
    if k == 0 then buf[..CLUSTER_SIZE]
    else if k + 1 < ClustersNeeded(size) then buf[CLUSTER_SIZE * k..CLUSTER_SIZE * k + CLUSTER_SIZE]
    else
      var rest := size % CLUSTER_SIZE;
      buf[CLUSTER_SIZE * k..CLUSTER_SIZE * k + rest] + Zeros(CLUSTER_SIZE - rest)
  }

  /** Writes of the first `n` parts of a file into the first `n` of `cells`. */
  function FileWrites(buf: seq<byte>, size: nat, cells: seq<nat>, n: nat): (ws: seq<Update>)
    requires Buffered(buf, size) && InMap(cells) && n <= |cells| && n <= ClustersNeeded(size)
    ensures |ws| == n
  {
    if n == 0 then []
    else FileWrites(buf, size, cells, n - 1) + [Put(cells[n - 1], FilePart(buf, size, n - 1))]
  }

  lemma FileWritesNext(buf: seq<byte>, size: nat, cells: seq<nat>, n: nat)
    requires Buffered(buf, size) && InMap(cells) && n < |cells| && n < ClustersNeeded(size)
    ensures FileWrites(buf, size, cells, 0) == []
    ensures FileWrites(buf, size, cells, n + 1)
         == FileWrites(buf, size, cells, n) + [Put(cells[n], FilePart(buf, size, n))]
  {
  }

  /** The clusters `cells` laid end to end. */
  function Content(v: Volume, cells: seq<nat>): (b: seq<byte>)
    requires InMap(cells)
    ensures |b| == CLUSTER_SIZE * |cells|
  {
    if cells == [] then []
    else
      var n := |cells| - 1;
      assert InMap(cells[..n]);
      Content(v, cells[..n]) + v[cells[n]]
  }

  lemma ContentExtend(v: Volume, cells: seq<nat>, k: nat)
    requires InMap(cells) && k < |cells|
    ensures InMap(cells[..k]) && InMap(cells[..k + 1])
    ensures Content(v, cells[..k + 1]) == Content(v, cells[..k]) + v[cells[k]]
  {
    assert cells[..k + 1][..k] == cells[..k];
  }

  // ----- the four operations -----

  predicate IsDirTable(t: Table) { Live(t[0]) && IsDir(t[0]) }

  /** The request gets past the checks of `write`: the parent is a directory with a spare slot and
      no entry of that name. */
  predicate Admitted(t: Table, r: Request) {
    IsDirTable(t) && FirstDead(t, FIRST_SLOT) < TABLE_SIZE
    && FindKey(t, r.name, r.ext, FIRST_SLOT) == TABLE_SIZE
  }

  /** Clusters an admitted request takes. */
  function Needed(r: Request): (n: nat)
    ensures n > 0
  {
    if r.bufferSize == 0 then 1 else ClustersNeeded(r.bufferSize)
  }

  /** What `write` demands of its caller: a whole-cluster buffer for a file, and room. */
  predicate CanWrite(v: Volume, fat: Fat, r: Request) {
    && (r.bufferSize > 0 ==> Buffered(r.buf, r.bufferSize))
    && (Admitted(Tab(v, r.parent), r) ==> Needed(r) <= FreeCount(fat))
  }

  function DirEntry(name: Name, c: u32): Entry { MakeEntry(name, NO_EXT, ATTR_SUBDIRECTORY, c, 0) }

  /** A new directory: itself, its parent, and 62 empty slots. */
  function NewTable(name: Name, self: u32, parent: u32): Table {
    [DirEntry(name, self), DirEntry(DOTDOT, parent)] + seq<Entry>(TABLE_SIZE - 2, i => ZERO_ENTRY)
  }

  function WritePlan(v: Volume, fat: Fat, r: Request): Plan
    requires CanWrite(v, fat, r)
  {
    var t := Tab(v, r.parent);
    if !IsDirTable(t) then Plan(2, [], fat, t)
    else if FirstDead(t, FIRST_SLOT) == TABLE_SIZE then Plan(-1, [], fat, t)
    else if FindKey(t, r.name, r.ext, FIRST_SLOT) < TABLE_SIZE then Plan(1, [], fat, t)
    else if r.bufferSize == 0 then FolderPlan(v, fat, r)
    else FilePlan(v, fat, r)
  }

  function FolderPlan(v: Volume, fat: Fat, r: Request): (p: Plan)
    requires CanWrite(v, fat, r) && Admitted(Tab(v, r.parent), r) && r.bufferSize == 0
    ensures p.code == 0
  {
    PicksFree(fat, 1);
    var t, c := Tab(v, r.parent), Picks(fat, 1)[0];
    var fat' := Join(fat, [c]);
    var t' := t[FirstDead(t, FIRST_SLOT) := DirEntry(r.name, c)];
    Plan(0, [Put(FAT_CLUSTER, EncodeFat(fat')), Put(r.parent, EncodeTable(t')),
             Put(c, EncodeTable(NewTable(r.name, c, r.parent)))], fat', t')
  }

  function FilePlan(v: Volume, fat: Fat, r: Request): (p: Plan)
    requires CanWrite(v, fat, r) && Admitted(Tab(v, r.parent), r) && r.bufferSize > 0
    ensures p.code == 0
  {
    var n := Needed(r);
    PicksFree(fat, n);
    var t, cells := Tab(v, r.parent), Picks(fat, n);
    var fat' := Join(fat, cells);
    var t' := t[FirstDead(t, FIRST_SLOT) := MakeEntry(r.name, r.ext, 0, cells[0], r.bufferSize)];
    Plan(0, FileWrites(r.buf, r.bufferSize, cells, n)
            + [Put(FAT_CLUSTER, EncodeFat(fat')), Put(r.parent, EncodeTable(t'))], fat', t')
  }

  /** An entry the folder case of `delete` has wiped: name and both attributes only. */
  function Wiped(e: Entry): Entry { e.(name := NO_NAME, attribute := 0, userAttribute := 0) }

  function ZeroWrites(cells: seq<nat>, n: nat): (ws: seq<Update>)
    requires InMap(cells) && n <= |cells|
    ensures |ws| == n
  {
    if n == 0 then [] else ZeroWrites(cells, n - 1) + [Put(cells[n - 1], ZERO_CLUSTER)]
  }

  lemma ZeroWritesNext(cells: seq<nat>, n: nat)
    requires InMap(cells) && n < |cells|
    ensures ZeroWrites(cells, 0) == []
    ensures ZeroWrites(cells, n + 1) == ZeroWrites(cells, n) + [Put(cells[n], ZERO_CLUSTER)]
  {
  }

  /** What `delete` needs of the entry it finds: its chain lies in the map and ends. */
  predicate CanDelete(v: Volume, fat: Fat, r: Request) {
    var t := Tab(v, r.parent);
    var row := FindKey(t, r.name, r.ext, FIRST_SLOT);
    IsDirTable(t) && row < TABLE_SIZE ==> Terminated(fat, FirstCluster(t[row]))
  }

  predicate NoChildren(t: Table) {
    forall s :: FIRST_SLOT <= s < TABLE_SIZE ==> !Live(t[s])
  }

  function DeletePlan(v: Volume, fat: Fat, r: Request): Plan
    requires CanDelete(v, fat, r)
  {
    var t := Tab(v, r.parent);
    var row := FindKey(t, r.name, r.ext, FIRST_SLOT);
    if !IsDirTable(t) then Plan(-1, [], fat, t)
    else if row == TABLE_SIZE then Plan(1, [], fat, t)
    else if !IsDir(t[row]) then RemoveFilePlan(fat, r.parent, t, row)
    else if !NoChildren(Tab(v, FirstCluster(t[row]))) then Plan(2, [], fat, t)
    else RemoveFolderPlan(v, fat, r.parent, t, row)
  }

  function RemoveFolderPlan(v: Volume, fat: Fat, parent: ClusterNo, t: Table, row: nat): (p: Plan)
    requires row < TABLE_SIZE && FirstCluster(t[row]) < CLUSTER_MAP_SIZE
    ensures p.code == 0
  {
    var c := FirstCluster(t[row]);
    var t', target, fat' := t[row := Wiped(t[row])], Tab(v, c), fat[c := EMPTY_ENTRY];
    var target' := target[0 := Wiped(target[0])][1 := Wiped(target[1])];
    Plan(0, [Put(parent, EncodeTable(t')), Put(c, EncodeTable(target')),
             Put(FAT_CLUSTER, EncodeFat(fat'))], fat', t')
  }

  function RemoveFilePlan(fat: Fat, parent: ClusterNo, t: Table, row: nat): (p: Plan)
    requires row < TABLE_SIZE && Terminated(fat, FirstCluster(t[row]))
    ensures p.code == 0
  {
    var c := FirstCluster(t[row]);
    ChainCells(fat, c);
    var cells := Chain(fat, c);
    var t', fat' := t[row := ZERO_ENTRY], Clear(fat, cells);
    Plan(0, [Put(parent, EncodeTable(t'))] + ZeroWrites(cells, |cells|)
            + [Put(FAT_CLUSTER, EncodeFat(fat')), Put(cells[|cells| - 1], ZERO_CLUSTER)], fat', t')
  }

  /** Outcome of a read: the code and, on success, the clusters copied to the caller. */
  datatype Reading = Reading(code: int, cells: seq<nat>)

  predicate CanRead(v: Volume, r: Request) {
    var t := Tab(v, r.parent);
    var row := FindKey(t, r.name, r.ext, 0);
    Live(t[0]) && row < TABLE_SIZE && !IsDir(t[row]) && t[row].filesize <= r.bufferSize ==>
      var c := FirstCluster(t[row]);
      Terminated(FatOn(v), c) && |Chain(FatOn(v), c)| <= ClustersNeeded(t[row].filesize)
  }

  function ReadPlan(v: Volume, r: Request): (p: Reading)
    requires CanRead(v, r)
    ensures InMap(p.cells)
  {
    var t := Tab(v, r.parent);
    var row := FindKey(t, r.name, r.ext, 0);
    if !Live(t[0]) then Reading(-1, [])
    else if row == TABLE_SIZE then Reading(2, [])
    else if IsDir(t[row]) then Reading(1, [])
    else if r.bufferSize < t[row].filesize then Reading(-1, [])
    else
      ChainCells(FatOn(v), FirstCluster(t[row]));
      Reading(0, Chain(FatOn(v), FirstCluster(t[row])))
  }

  /** A file that passes the size check fits a buffer of whole clusters. */
  lemma ReadFits(v: Volume, r: Request)
    requires CanRead(v, r)
    ensures |ReadPlan(v, r).cells| <= ClustersNeeded(r.bufferSize)
  {
  }

  predicate CanReadDirectory(v: Volume, r: Request) {
    var t := Tab(v, r.parent);
    var row := FindName(t, r.name, 0);
    Live(t[0]) && row < TABLE_SIZE && IsDir(t[row]) ==> FirstCluster(t[row]) < CLUSTER_MAP_SIZE
  }

  function ReadDirectoryPlan(v: Volume, r: Request): (p: Reading)
    requires CanReadDirectory(v, r)
    ensures InMap(p.cells) && (p.code == 0 <==> |p.cells| == 1)
  {
    var t := Tab(v, r.parent);
    var row := FindName(t, r.name, 0);
    if !Live(t[0]) then Reading(-1, [])
    else if row == TABLE_SIZE then Reading(2, [])
    else if !IsDir(t[row]) then Reading(1, [])
    else Reading(0, [FirstCluster(t[row])])
  }

  // ----- formatting -----

  /** The five 16-byte rows of text of the boot block, in ASCII. */
  const ROW_1: seq<byte> :=
    [0x43, 0x6F, 0x75, 0x72, 0x73, 0x65, 0x20, 0x20, 0x20, 0x20, 0x20, 0x20, 0x20, 0x20, 0x20, 0x20]
  const ROW_2: seq<byte> :=
    [0x44, 0x65, 0x73, 0x69, 0x67, 0x6E, 0x65, 0x64, 0x20, 0x62, 0x79, 0x20, 0x20, 0x20, 0x20, 0x20]
  const ROW_3: seq<byte> :=
    [0x4C, 0x61, 0x62, 0x20, 0x53, 0x69, 0x73, 0x74, 0x65, 0x72, 0x20, 0x49, 0x54, 0x42, 0x20, 0x20]
  const ROW_4: seq<byte> :=
    [0x4D, 0x61, 0x64, 0x65, 0x20, 0x77, 0x69, 0x74, 0x68, 0x20, 0x3C, 0x33, 0x20, 0x20, 0x20, 0x20]
  const ROW_5: seq<byte> :=
    [0x2D, 0x2D, 0x2D, 0x2D, 0x2D, 0x2D, 0x2D, 0x2D, 0x2D, 0x2D, 0x2D, 0x32, 0x30, 0x32, 0x33, 0x0A]

  /** The boot block: the text, zeros, and "Ok" in the last two bytes. */
  const SIGNATURE: seq<byte> := ROW_1 + ROW_2 + ROW_3 + ROW_4 + ROW_5 + Zeros(BLOCK_SIZE - 82) + [0x4F, 0x6B]

  predicate Signed(v: Volume) { v[BOOT_SECTOR][..BLOCK_SIZE] == SIGNATURE }

  const FIRST_FAT: Fat :=
    [CLUSTER_0_VALUE, CLUSTER_1_VALUE, END_OF_FILE] + Zeros(CLUSTER_MAP_SIZE - 3)

  const ROOT_TABLE: Table := NewTable(ROOT_NAME, ROOT_CLUSTER, ROOT_CLUSTER)

  /** The writes of `create_fat32`; the signature covers only the first block of cluster 0. */
  function FormatWrites(v: Volume): seq<Update> {
    [Put(BOOT_SECTOR, SIGNATURE + v[BOOT_SECTOR][BLOCK_SIZE..]),
     Put(FAT_CLUSTER, EncodeFat(FIRST_FAT)),
     Put(ROOT_CLUSTER, EncodeTable(ROOT_TABLE))]
  }
}
