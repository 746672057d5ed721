/** The abstract file system: a tree of named files and directories. The driver refines it. */
module Tree {
  import opened Types
  import opened Layout
  import opened Chains
  import opened Operations
  import opened Structure

  datatype Key = Key(name: Name, ext: Ext)

  /** A file with its recorded size and the whole clusters stored for it, or a sub-directory. */
  datatype Node = FileNode(size: nat, bytes: seq<byte>) | DirNode(dir: nat)

  datatype Directory = Directory(name: Name, parent: nat, entries: map<Key, Node>)

  type FileTree = map<nat, Directory>

  // ----- abstraction -----

  function KeyOf(e: Entry): Key { Key(e.name, e.ext) }

  lemma {:induction false} ChainInMap(fat: Fat, c: nat)
    requires c < |fat|
    ensures InMap(Chain(fat, c))
    decreases |fat| - c
  {
    if Linked(fat, c) { ChainInMap(fat, fat[c]); }
  }

  function NodeOf(v: Volume, fat: Fat, e: Entry): Node {
    var c := FirstCluster(e);
    if IsDir(e) then DirNode(c)
    else if c < CLUSTER_MAP_SIZE then ChainInMap(fat, c); FileNode(e.filesize, Content(v, Chain(fat, c)))
    else FileNode(e.filesize, [])
  }

  /** The entries in use from slot `i` on. */
  function EntriesFrom(v: Volume, fat: Fat, t: Table, i: nat): map<Key, Node>
    requires i <= TABLE_SIZE
    decreases TABLE_SIZE - i
  {
    if i == TABLE_SIZE then map[]
    else
      var rest := EntriesFrom(v, fat, t, i + 1);
      if Live(t[i]) then rest[KeyOf(t[i]) := NodeOf(v, fat, t[i])] else rest
  }

  function DirectoryAt(v: Volume, fat: Fat, g: Shape, d: nat): Directory {
    if d < CLUSTER_MAP_SIZE then
      Directory(Tab(v, d)[0].name, ParentOf(g, d), EntriesFrom(v, fat, Tab(v, d), FIRST_SLOT))
    else Directory(NO_NAME, d, map[])
  }

  ghost function Abs(v: Volume, fat: Fat, g: Shape): FileTree {
    map d | d in g.depth :: DirectoryAt(v, fat, g, d)
  }

  // ----- the abstract operations -----

  function Plus(d: Directory, k: Key, n: Node): Directory { d.(entries := d.entries[k := n]) }

  function Minus(d: Directory, k: Key): Directory { d.(entries := d.entries - {k}) }

  const CAPACITY := TABLE_SIZE - FIRST_SLOT

  /** What a stored file reads back as: whole clusters, of which the last of several holds only
      `size % CLUSTER_SIZE` bytes of the data. */
  function Stored(buf: seq<byte>, size: nat): seq<byte>
    requires Buffered(buf, size) && size > 0
  {
    if size <= CLUSTER_SIZE then buf[..CLUSTER_SIZE]
    else
      var n := ClustersNeeded(size);
      var kept := CLUSTER_SIZE * (n - 1) + size % CLUSTER_SIZE;
      buf[..kept] + Zeros(CLUSTER_SIZE * n - kept)
  }

  /** `a'` is `a` with the folder of request `r` created under the identity `c`. */
  ghost predicate FreshFolder(a: FileTree, r: Request, c: nat, a': FileTree)
    requires r.parent in a
  {
    && c !in a
    && a' == a[r.parent := Plus(a[r.parent], Key(r.name, r.ext), DirNode(c))][c := Directory(r.name, r.parent, map[])]
  }

  /** `write`: a full directory is reported before a name clash, and a folder gets a fresh identity. */
  ghost predicate WriteSpec(a: FileTree, r: Request, code: int, a': FileTree)
    requires r.parent in a && (r.bufferSize > 0 ==> Buffered(r.buf, r.bufferSize))
  {
    var d, k := a[r.parent], Key(r.name, r.ext);
    if |d.entries| >= CAPACITY then code == -1 && a' == a
    else if k in d.entries then code == 1 && a' == a
    else if r.bufferSize == 0 then
      code == 0 && exists c: nat :: FreshFolder(a, r, c, a')
    else
      code == 0
      && a' == a[r.parent := Plus(d, k, FileNode(r.bufferSize, Stored(r.buf, r.bufferSize)))]
  }

  /** `delete`: removes a file or an empty directory. */
  ghost predicate DeleteSpec(a: FileTree, r: Request, code: int, a': FileTree)
    requires r.parent in a
  {
    var d, k := a[r.parent], Key(r.name, r.ext);
    if k !in d.entries then code == 1 && a' == a
    else if d.entries[k].DirNode? && d.entries[k].dir in a && a[d.entries[k].dir].entries != map[] then
      code == 2 && a' == a
    else
      code == 0
      && a' == a[r.parent := Minus(d, k)] - (if d.entries[k].DirNode? then {d.entries[k].dir} else {})
  }

  /** `read`: the directory's own name and ".." come first and are directories. */
  ghost predicate ReadSpec(d: Directory, r: Request, code: int, bytes: seq<byte>)
  {
    var k := Key(r.name, r.ext);
    if k == Key(d.name, NO_EXT) || k == Key(DOTDOT, NO_EXT) then code == 1
    else if k !in d.entries then code == 2
    else match d.entries[k]
      case DirNode(_) => code == 1
      case FileNode(size, content) =>
        if r.bufferSize < size then code == -1 else code == 0 && bytes == content
  }

  /** `read_directory`: extensions do not matter; `dir` is the directory whose table is returned. */
  ghost predicate ReadDirectorySpec(d: Directory, r: Request, code: int, dir: nat)
  {
    if r.name == d.name then code == 0 && dir == r.parent
    else if r.name == DOTDOT then code == 0 && dir == d.parent
    else if forall ext: Ext :: Key(r.name, ext) !in d.entries then code == 2
    else exists ext: Ext :: Key(r.name, ext) in d.entries &&
           match d.entries[Key(r.name, ext)]
           case DirNode(c) => code == 0 && dir == c
           case FileNode(_, _) => code == 1
  }

  // ----- entries of one table -----

  function LiveCount(t: Table, i: nat): nat
    requires i <= TABLE_SIZE
    decreases TABLE_SIZE - i
  {
    if i == TABLE_SIZE then 0 else (if Live(t[i]) then 1 else 0) + LiveCount(t, i + 1)
  }

  lemma {:induction false} LiveCountFull(t: Table, i: nat)
    requires i <= TABLE_SIZE
    ensures LiveCount(t, i) <= TABLE_SIZE - i
    ensures LiveCount(t, i) == TABLE_SIZE - i <==> forall s :: i <= s < TABLE_SIZE ==> Live(t[s])
    decreases TABLE_SIZE - i
  {
    if i < TABLE_SIZE { LiveCountFull(t, i + 1); }
  }

  /** The abstract entries are exactly the slots in use, one each. */
  lemma {:induction false} EntriesExact(v: Volume, fat: Fat, t: Table, i: nat)
    requires FIRST_SLOT <= i <= TABLE_SIZE && KeysUnique(t)
    ensures forall s :: i <= s < TABLE_SIZE && Live(t[s]) ==>
              KeyOf(t[s]) in EntriesFrom(v, fat, t, i) && EntriesFrom(v, fat, t, i)[KeyOf(t[s])] == NodeOf(v, fat, t[s])
    ensures forall k :: k in EntriesFrom(v, fat, t, i) ==>
            exists s :: i <= s < TABLE_SIZE && Live(t[s]) && KeyOf(t[s]) == k
    ensures |EntriesFrom(v, fat, t, i)| == LiveCount(t, i)
    decreases TABLE_SIZE - i
  {
    hide NodeOf;
    if i < TABLE_SIZE {
      EntriesExact(v, fat, t, i + 1);
      forall s | i < s < TABLE_SIZE && Live(t[s]) && Live(t[i]) ensures KeyOf(t[s]) != KeyOf(t[i]) {
        KeysDiffer(t, i, s);
      }
    }
  }

  /** Nodes that stay the same keep the directory the same. */
  lemma {:induction false} EntriesFrame(v: Volume, fat: Fat, t: Table, v': Volume, fat': Fat, t': Table, i: nat)
    requires i <= TABLE_SIZE && t'[i..] == t[i..]
    requires forall s :: i <= s < TABLE_SIZE && Live(t[s]) ==> NodeOf(v', fat', t[s]) == NodeOf(v, fat, t[s])
    ensures EntriesFrom(v', fat', t', i) == EntriesFrom(v, fat, t, i)
    decreases TABLE_SIZE - i
  {
    hide NodeOf;
    if i < TABLE_SIZE {
      assert t'[i + 1..] == t'[i..][1..] && t[i + 1..] == t[i..][1..];
      assert t'[i..][0] == t[i..][0];
      EntriesFrame(v, fat, t, v', fat', t', i + 1);
    }
  }

  lemma {:induction false} EntriesAdd(v: Volume, fat: Fat, v': Volume, fat': Fat, t: Table, p: nat, e: Entry, i: nat)
    requires i <= p < TABLE_SIZE && !Live(t[p]) && Live(e)
    requires forall s :: i <= s < TABLE_SIZE && Live(t[s]) ==>
               KeyOf(t[s]) != KeyOf(e) && NodeOf(v', fat', t[s]) == NodeOf(v, fat, t[s])
    ensures EntriesFrom(v', fat', t[p := e], i) == EntriesFrom(v, fat, t, i)[KeyOf(e) := NodeOf(v', fat', e)]
    decreases p - i
  {
    hide NodeOf, KeyOf;
    if i == p {
      assert t[p := e][p + 1..] == t[p + 1..];
      EntriesFrame(v, fat, t, v', fat', t[p := e], p + 1);
    } else {
      EntriesAdd(v, fat, v', fat', t, p, e, i + 1);
    }
  }

  lemma KeyGone(v: Volume, fat: Fat, t: Table, p: nat)
    requires FIRST_SLOT <= p < TABLE_SIZE && KeysUnique(t) && Live(t[p])
    ensures KeyOf(t[p]) !in EntriesFrom(v, fat, t, p + 1)
  {
    EntriesExact(v, fat, t, p + 1);
    forall s | p < s < TABLE_SIZE && Live(t[s]) ensures KeyOf(t[s]) != KeyOf(t[p]) {
      KeysDiffer(t, p, s);
    }
  }

  lemma {:induction false} EntriesRemove(v: Volume, fat: Fat, v': Volume, fat': Fat, t: Table, p: nat, blank: Entry,
                                         i: nat)
    requires FIRST_SLOT <= i <= p < TABLE_SIZE && Live(t[p]) && !Live(blank) && KeysUnique(t)
    requires forall s :: i <= s < TABLE_SIZE && s != p && Live(t[s]) ==>
               KeyOf(t[s]) != KeyOf(t[p]) && NodeOf(v', fat', t[s]) == NodeOf(v, fat, t[s])
    ensures EntriesFrom(v', fat', t[p := blank], i) == EntriesFrom(v, fat, t, i) - {KeyOf(t[p])}
    decreases p - i
  {
    hide NodeOf, KeyOf, KeysUnique, Live;
    if i == p {
      assert t[p := blank][p + 1..] == t[p + 1..];
      EntriesFrame(v, fat, t, v', fat', t[p := blank], p + 1);
      KeyGone(v, fat, t, p);
    } else {
      EntriesRemove(v, fat, v', fat', t, p, blank, i + 1);
    }
  }

  /** Two slots in use never carry the same key. */
  lemma KeysDiffer(t: Table, s: nat, s': nat)
    requires KeysUnique(t) && FIRST_SLOT <= s < TABLE_SIZE && FIRST_SLOT <= s' < TABLE_SIZE && s != s'
    requires Live(t[s]) && Live(t[s'])
    ensures KeyOf(t[s]) != KeyOf(t[s'])
  {
    var a, b := if s < s' then s else s', if s < s' then s' else s;
    assert !Matches(t[a], t[b].name, t[b].ext);
  }

  /** A table without entries in use is an empty directory, and conversely. */
  lemma {:induction false} NoEntries(v: Volume, fat: Fat, t: Table, i: nat)
    requires i <= TABLE_SIZE
    ensures EntriesFrom(v, fat, t, i) == map[] <==> forall s :: i <= s < TABLE_SIZE ==> !Live(t[s])
    decreases TABLE_SIZE - i
  {
    hide NodeOf, KeyOf;
    if i < TABLE_SIZE {
      NoEntries(v, fat, t, i + 1);
      if Live(t[i]) { assert KeyOf(t[i]) in EntriesFrom(v, fat, t, i); }
    }
  }

  // ----- lookups -----

  /** Searching the slots finds a key exactly when the abstract directory has it. */
  lemma FindKeyExact(v: Volume, fat: Fat, t: Table, name: Name, ext: Ext)
    requires KeysUnique(t) && DeadNameless(t) && name != NO_NAME
    ensures var s := FindKey(t, name, ext, FIRST_SLOT); var m := EntriesFrom(v, fat, t, FIRST_SLOT);
            && (s < TABLE_SIZE <==> Key(name, ext) in m)
            && (s < TABLE_SIZE ==> Live(t[s]) && m[Key(name, ext)] == NodeOf(v, fat, t[s]))
  {
    hide NodeOf;
    EntriesExact(v, fat, t, FIRST_SLOT);
    var s := FindKey(t, name, ext, FIRST_SLOT);
    if s < TABLE_SIZE {
      assert Live(t[s]) && KeyOf(t[s]) == Key(name, ext);
    } else {
      assert forall k :: FIRST_SLOT <= k < TABLE_SIZE && Live(t[k]) ==> KeyOf(t[k]) != Key(name, ext);
    }
  }

  /** A directory is full exactly when it has 62 entries. */
  lemma FullExact(v: Volume, fat: Fat, t: Table)
    requires KeysUnique(t)
    ensures FirstDead(t, FIRST_SLOT) == TABLE_SIZE <==> |EntriesFrom(v, fat, t, FIRST_SLOT)| >= CAPACITY == 62
  {
    EntriesExact(v, fat, t, FIRST_SLOT);
    LiveCountFull(t, FIRST_SLOT);
  }

  // ----- contents -----

  lemma {:induction false} ContentFrame(v: Volume, v': Volume, cells: seq<nat>)
    requires InMap(cells) && forall x :: x in cells && x < CLUSTER_MAP_SIZE ==> v'[x] == v[x]
    ensures Content(v', cells) == Content(v, cells)
  {
    if cells != [] {
      var n := |cells| - 1;
      assert cells[n] in cells && forall x :: x in cells[..n] ==> x in cells;
      ContentFrame(v, v', cells[..n]);
    }
  }

  lemma StoredLength(buf: seq<byte>, size: nat)
    requires Buffered(buf, size) && size > 0
    ensures |Stored(buf, size)| == CLUSTER_SIZE * ClustersNeeded(size)
  {
  }

  lemma StoredPart(buf: seq<byte>, size: nat, k: nat)
    requires Buffered(buf, size) && size > 0 && k < ClustersNeeded(size)
    requires |Stored(buf, size)| == CLUSTER_SIZE * ClustersNeeded(size)
    ensures Stored(buf, size)[CLUSTER_SIZE * k..CLUSTER_SIZE * k + CLUSTER_SIZE] == FilePart(buf, size, k)
  {
    var at, n, rest := CLUSTER_SIZE * k, ClustersNeeded(size), size % CLUSTER_SIZE;
    if size > CLUSTER_SIZE {
      var kept := CLUSTER_SIZE * (n - 1) + rest;
      assert Stored(buf, size) == buf[..kept] + Zeros(CLUSTER_SIZE * n - kept);
      if k + 1 == n {
        assert kept == at + rest;
        assert Stored(buf, size)[at..at + CLUSTER_SIZE] == buf[at..kept] + Zeros(CLUSTER_SIZE - rest);
      }
    }
  }

  /** The clusters of a written file, end to end, are its stored form. */
  lemma {:induction false} ContentStored(v: Volume, buf: seq<byte>, size: nat, cells: seq<nat>, n: nat)
    requires Buffered(buf, size) && size > 0 && InMap(cells) && |cells| == ClustersNeeded(size) && n <= |cells|
    requires forall k :: 0 <= k < |cells| ==> v[cells[k]] == FilePart(buf, size, k)
    requires |Stored(buf, size)| == CLUSTER_SIZE * |cells|
    ensures InMap(cells[..n]) && Content(v, cells[..n]) == Stored(buf, size)[..CLUSTER_SIZE * n]
  {
    hide FilePart, Stored;
    if n == 0 {
      assert cells[..0] == [];
    } else {
      ContentStored(v, buf, size, cells, n - 1);
      ContentExtend(v, cells, n - 1);
      var all, at := Stored(buf, size), CLUSTER_SIZE * (n - 1);
      StoredPart(buf, size, n - 1);
      assert all[..at + CLUSTER_SIZE] == all[..at] + all[at..at + CLUSTER_SIZE];
    }
  }
}
