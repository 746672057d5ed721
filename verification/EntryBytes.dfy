/** What writes and deletes leave of directory entries, byte by byte. */
module EntryBytes {
  import opened Types
  import opened Layout
  import opened Chains
  import opened Operations
  import opened Structure
  import opened Preservation
  import opened DiskFormat

  /** The bytes of a table off one entry. */
  predicate SameOff(a: Cluster, b: Cluster, s: nat)
    requires s < 64
  {
    a[..32 * s] == b[..32 * s] && a[32 * s + 32..] == b[32 * s + 32..]
  }

  lemma SlotBytes(v: Volume, v': Volume, d: ClusterNo, s: nat, e: Entry)
    requires s < 64 && Tab(v', d) == Tab(v, d)[s := e]
    ensures v'[d][32 * s..32 * s + 32] == EncodeEntry(e) && SameOff(v[d], v'[d], s)
  {
    hide DecodeTable, EncodeEntry;
    TableOverlay(Tab(v, d), v[d]);
    TableOverlay(Tab(v', d), v'[d]);
    EntrySlice(Tab(v', d), s);
    forall i | 0 <= i < 2048 && (i < 32 * s || 32 * s + 32 <= i) ensures v'[d][i] == v[d][i] {
      assert i == 32 * (i / 32) + i % 32 && i / 32 != s;
      EntryPlace(Tab(v, d), i / 32, i % 32);
      EntryPlace(Tab(v', d), i / 32, i % 32);
    }
  }

  /** From `before` to `after`, slot `s` gets an entry with the name and extension asked for, the directory
      attribute 0x10 or none, the mark 0xAA, the cluster `c` and the size asked for, and zeros elsewhere; the
      rest of the table is not touched. */
  predicate NewEntry(before: Cluster, after: Cluster, s: nat, r: Request, c: nat)
    requires s < 64
  {
    && SameOff(before, after, s)
    && Spelled(after[32 * s..32 * s + 32], r.name, r.ext, if r.bufferSize == 0 then 0x10 else 0, 0xAA, c, r.bufferSize,
               Zeros(7), Zeros(4))
  }

  /** A new folder starts with `entry`, then has ".." with the parent's cluster, then zeros. */
  predicate NewFolder(b: Cluster, entry: seq<byte>, parent: nat) {
    && b[0..32] == entry && b[64..] == Zeros(1984)
    && Spelled(b[32..64], [0x2E, 0x2E, 0, 0, 0, 0, 0, 0], [0, 0, 0], 0x10, 0xAA, parent, 0, Zeros(7), Zeros(4))
  }

  /** What a write leaves in its parent, and in the cluster of a new folder. */
  lemma WrittenBytes(v: Volume, fat: Fat, g: Shape, r: Request)
    requires Inv(v, fat, g) && Adding(v, fat, g, r)
    ensures AddedPlace(v, r).slot < 64
    ensures var v', c, s := Apply(v, WritePlan(v, fat, r).writes), FolderCell(fat, r), AddedPlace(v, r).slot;
            && NewEntry(v[r.parent], v'[r.parent], s, r, c)
            && (r.bufferSize == 0 ==> NewFolder(v'[c], v'[r.parent][32 * s..32 * s + 32], r.parent))
  {
    hide DecodeTable, WritePlan, Apply, Picks, FilePart, Inv, ByteOf, EncodeEntry, NewTable, FatOn, Join;
    var v', e, s := Apply(v, WritePlan(v, fat, r).writes), AddedEntry(fat, r), AddedPlace(v, r).slot;
    WriteEffect(v, fat, g, r);
    AddedEntryOk(v, fat, g, r);
    FreshCells(v, fat, g, Needed(r));
    assert AddedCells(fat, r)[0] in AddedCells(fat, r);
    SlotBytes(v, v', r.parent, s, e);
    EntrySpelled(e);
    if r.bufferSize == 0 { FolderBytes(v', AddedCells(fat, r)[0], r.name, r.parent); }
  }

  lemma FolderBytes(v: Volume, c: ClusterNo, name: Name, parent: ClusterNo)
    requires Tab(v, c) == NewTable(name, c, parent)
    ensures v[c][0..32] == EncodeEntry(DirEntry(name, c)) && v[c][64..] == Zeros(1984)
    ensures Spelled(v[c][32..64], [0x2E, 0x2E, 0, 0, 0, 0, 0, 0], [0, 0, 0], 0x10, 0xAA, parent, 0, Zeros(7), Zeros(4))
  {
    hide DecodeTable, EncodeEntry, ByteOf;
    var t := Tab(v, c);
    TableOverlay(t, v[c]);
    EntrySlice(t, 0);
    EntrySlice(t, 1);
    EntrySpelled(t[1]);
    assert t[1..][1..] == seq<Entry>(62, i => ZERO_ENTRY);
    assert EncodeEntries(t) == EncodeEntry(t[0]) + (EncodeEntry(t[1]) + EncodeEntries(t[1..][1..]));
    ZeroEntryBytes(62);
  }

  /** A file of `size` bytes takes the least number of clusters that hold it. */
  lemma LeastClusters(r: Request)
    requires r.bufferSize > 0
    ensures 2048 * (Needed(r) - 1) < r.bufferSize <= 2048 * Needed(r)
  {
  }

  /** Byte `b` of cluster `j` of a file comes from the buffer. */
  predicate Copied(r: Request, j: nat, b: nat) { j == 0 || j < Needed(r) - 1 || b < r.bufferSize % 2048 }

  /** The data of a written file, byte by byte: the first cluster, and every one but the last, is copied whole
      from the buffer; of the last of several only `size % 2048` bytes are, and the rest is zeros. */
  lemma DataBytes(v: Volume, fat: Fat, g: Shape, r: Request, j: nat, b: nat)
    requires Inv(v, fat, g) && Adding(v, fat, g, r) && r.bufferSize > 0 && j < Needed(r) && b < 2048
    ensures |AddedCells(fat, r)| == Needed(r) && AddedCells(fat, r)[j] < 512
    ensures Copied(r, j, b) ==> 2048 * j + b < |r.buf|
    ensures Apply(v, WritePlan(v, fat, r).writes)[AddedCells(fat, r)[j]][b] ==
            if Copied(r, j, b) then r.buf[2048 * j + b] else 0
  {
    hide DecodeTable, WritePlan, Apply, Picks, Inv, FatOn, Join, Tab, Admitted;
    WriteEffect(v, fat, g, r);
    FreshCells(v, fat, g, Needed(r));
    assert AddedCells(fat, r)[j] in AddedCells(fat, r);
    LeastClusters(r);
  }

  /** The 32 bytes of an entry without its name, attribute and mark. */
  predicate Unnamed(before: seq<byte>, after: seq<byte>)
    requires |before| == |after| == 32
  {
    forall j :: 0 <= j < 32 ==> after[j] == if j < 8 || j == 11 || j == 12 then 0 else before[j]
  }

  lemma WipedBytes(e: Entry)
    ensures Unnamed(EncodeEntry(e), EncodeEntry(Wiped(e))) && EncodeEntry(ZERO_ENTRY) == Zeros(32)
  {
    hide Le16, Le32;
    var rest := e.stamps + Le16(e.clusterHigh) + e.modified + Le16(e.clusterLow) + Le32(e.filesize);
    assert EncodeEntry(e) == e.name + e.ext + [e.attribute, e.userAttribute] + rest;
    assert EncodeEntry(Wiped(e)) == NO_NAME + e.ext + [0, 0] + rest;
    ZeroEntryBytes(1);
    assert EncodeEntries([ZERO_ENTRY]) == EncodeEntry(ZERO_ENTRY) + EncodeEntries([ZERO_ENTRY][1..]);
    assert seq<Entry>(1, i => ZERO_ENTRY) == [ZERO_ENTRY];
  }

  /** Deleting a file fills its entry, and every cluster it had, with zeros. Deleting a folder only takes the
      name, the attribute and the mark out of its entry, and out of the first two entries of its own table. */
  lemma DeletedBytes(v: Volume, fat: Fat, g: Shape, r: Request)
    requires Inv(v, fat, g) && Removing(v, g, r)
    ensures CanDelete(v, fat, r) && RemovedPlace(v, r).slot < 64
    ensures var v', s := Apply(v, DeletePlan(v, fat, r).writes), RemovedPlace(v, r).slot;
            var e, c := EntryAt(Tabs(v), RemovedPlace(v, r)), Head(Tabs(v), RemovedPlace(v, r));
            && SameOff(v[r.parent], v'[r.parent], s)
            && (if IsDir(e) then
                  && Unnamed(v[r.parent][32 * s..32 * s + 32], v'[r.parent][32 * s..32 * s + 32])
                  && Unnamed(v[c][0..32], v'[c][0..32]) && Unnamed(v[c][32..64], v'[c][32..64])
                  && v'[c][64..] == v[c][64..]
                else
                  && v'[r.parent][32 * s..32 * s + 32] == Zeros(32)
                  && forall x :: x in Chain(fat, c) && x < 512 ==> v'[x] == Zeros(2048))
  {
    hide DecodeTable, DeletePlan, Apply, Inv, EncodeEntry, Wiped, Chain, Clear, FatOn;
    FoundIsPlace(v, fat, g, r);
    DeleteEffect(v, fat, g, r);
    var v', p := Apply(v, DeletePlan(v, fat, r).writes), RemovedPlace(v, r);
    var e := EntryAt(Tabs(v), p);
    SlotBytes(v, v', r.parent, p.slot, Blank(e));
    WipedBytes(e);
    TableOverlay(Tab(v, r.parent), v[r.parent]);
    EntrySlice(Tab(v, r.parent), p.slot);
    if IsDir(e) {
      RemoveFolderEffect(v, fat, g, r, e);
      HeaderWiped(v, v', FirstCluster(e));
    } else {
      RemoveFileEffect(v, fat, g, r, e);
    }
  }

  lemma HeaderWiped(v: Volume, v': Volume, c: ClusterNo)
    requires Tab(v', c) == Tab(v, c)[0 := Wiped(Tab(v, c)[0])][1 := Wiped(Tab(v, c)[1])]
    ensures Unnamed(v[c][0..32], v'[c][0..32]) && Unnamed(v[c][32..64], v'[c][32..64]) && v'[c][64..] == v[c][64..]
  {
    hide DecodeTable, EncodeEntry, Wiped;
    var t, t' := Tab(v, c), Tab(v', c);
    TableOverlay(t, v[c]);
    TableOverlay(t', v'[c]);
    EntrySlice(t, 0);
    EntrySlice(t, 1);
    EntrySlice(t', 0);
    EntrySlice(t', 1);
    WipedBytes(t[0]);
    WipedBytes(t[1]);
    forall i | 64 <= i < 2048 ensures v'[c][i] == v[c][i] {
      assert i == 32 * (i / 32) + i % 32 && i / 32 >= 2;
      EntryPlace(t, i / 32, i % 32);
      EntryPlace(t', i / 32, i % 32);
    }
  }
}
