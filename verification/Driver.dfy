/** The FAT32 driver: a cached allocation table and a directory buffer over the disk. Each method
    is proved to return the code, make the cluster writes and leave the caches its plan gives. */
module Fat32 {
  import opened Types
  import opened Layout
  import opened Chains
  import opened Operations
  import opened BlockDevice

  datatype DriverState = DriverState(disk: Volume, fat: Fat, dir: Table, log: seq<Update>)

  /** The state after `p`: its writes made and logged, and its tables in the caches. */
  function After(s: DriverState, p: Plan): DriverState {
    DriverState(Apply(s.disk, p.writes), p.fat, p.dir, s.log + p.writes)
  }

  lemma NothingCopied(v: Volume, buf: seq<byte>)
    ensures Splice(buf, 0, Content(v, [])) == buf
  {
  }

  class Driver {
    const disk: Disk
    const fatTable: array<u32>
    const dirTable: array<Entry>
    /** The disk the driver started from, and every cluster it has written since, in order. */
    ghost const base: Volume
    ghost var log: seq<Update>

    ghost predicate Valid()
      reads this, disk.image
    {
      && disk.Valid() && fatTable.Length == CLUSTER_MAP_SIZE && dirTable.Length == TABLE_SIZE
      && (disk.image as object) != fatTable && disk.Clusters() == Apply(base, log)
    }

    ghost function Contents(): Volume
      reads this, disk.image
      requires Valid()
    {
      disk.Clusters()
    }

    ghost function Cached(): Fat
      reads this, disk.image, fatTable
      requires Valid()
    {
      fatTable[..]
    }

    ghost function State(): DriverState
      reads this, disk.image, fatTable, dirTable
      requires Valid()
    {
      DriverState(Contents(), fatTable[..], dirTable[..], log)
    }

    /** A driver over a blank disk, before initialisation. */
    constructor ()
      ensures Valid() && fresh(disk) && fresh(disk.image) && fresh(fatTable) && fresh(dirTable)
      ensures Contents() == seq<Cluster>(IMAGE_CLUSTERS, n => ZERO_CLUSTER)
    {
      disk := new Disk();
      fatTable := new u32[CLUSTER_MAP_SIZE](i => 0);
      dirTable := new Entry[TABLE_SIZE](i => ZERO_ENTRY);
      log := [];
      base := seq<Cluster>(IMAGE_CLUSTERS, n => ZERO_CLUSTER);
    }

    method WriteCluster(n: ClusterNo, c: Cluster)
      requires Valid()
      modifies this`log, disk.image
      ensures Valid() && Contents() == old(Contents())[n := c]
      ensures log == old(log) + [Put(n, c)]
    {
      disk.WriteCluster(n, c);
      ApplyAppend(base, log, Put(n, c));
      log := log + [Put(n, c)];
    }

    method LoadDirectory(d: ClusterNo)
      requires Valid()
      modifies dirTable
      ensures Valid() && dirTable[..] == Tab(Contents(), d)
    {
      var c := disk.ReadCluster(d);
      StoreTable(DecodeTable(c));
    }

    method LoadFat()
      requires Valid()
      modifies fatTable
      ensures Valid() && fatTable[..] == FatOn(Contents())
    {
      var c := disk.ReadCluster(FAT_CLUSTER);
      StoreFat(DecodeFat(c));
    }

    method CreateFat32()
      requires Valid()
      modifies this`log, disk.image, fatTable, dirTable
      ensures Valid() && State() == After(old(State()), Plan(0, FormatWrites(old(Contents())), FIRST_FAT, ROOT_TABLE))
    {
      hide ToVolume, Apply, EncodeTable, DecodeTable, EncodeFat, DecodeFat;
      ghost var ws := FormatWrites(Contents());
      WriteSignature();
      WriteCluster(FAT_CLUSTER, EncodeFat(FIRST_FAT));
      WriteCluster(ROOT_CLUSTER, EncodeTable(ROOT_TABLE));
      StoreFat(FIRST_FAT);
      StoreTable(ROOT_TABLE);
      assert log == old(log) + ws;
      ApplyConcat(base, old(log), ws);
    }

    /** Overwrites the first block of the boot sector only. */
    method WriteSignature()
      requires Valid()
      modifies this`log, disk.image
      ensures Valid() && log == old(log) + [FormatWrites(old(Contents()))[0]]
    {
      ghost var image := disk.image[..];
      ghost var signed := SIGNATURE + Contents()[BOOT_SECTOR][BLOCK_SIZE..];
      disk.WriteBlocks(SIGNATURE, BOOT_SECTOR, 1);
      assert disk.image[..] == Splice(image, CLUSTER_SIZE * BOOT_SECTOR, signed);
      SpliceCluster(image, BOOT_SECTOR, signed);
      ApplyAppend(base, log, Put(BOOT_SECTOR, signed));
      log := log + [Put(BOOT_SECTOR, signed)];
    }

    method StoreFat(f: Fat)
      requires Valid()
      modifies fatTable
      ensures Valid() && fatTable[..] == f
    {
      forall i | 0 <= i < CLUSTER_MAP_SIZE { fatTable[i] := f[i]; }
    }

    method StoreTable(t: Table)
      requires Valid()
      modifies dirTable
      ensures Valid() && dirTable[..] == t
    {
      forall i | 0 <= i < TABLE_SIZE { dirTable[i] := t[i]; }
    }

    /** Formats an unsigned disk; on a signed one only reloads the cached allocation table, which changes
        nothing when the cached table is the one on disk. */
    method Initialize()
      requires Valid()
      modifies this`log, disk.image, fatTable, dirTable
      ensures !old(Signed(Contents())) ==>
                Valid() && State() == After(old(State()), Plan(0, FormatWrites(old(Contents())), FIRST_FAT, ROOT_TABLE))
      ensures old(Signed(Contents())) ==>
                Valid() && State() == After(old(State()), Plan(0, [], FatOn(old(Contents())), old(dirTable[..])))
      ensures old(Signed(Contents()) && FatOn(Contents()) == Cached()) ==> State() == old(State())
    {
      var boot := disk.ReadCluster(BOOT_SECTOR);
      if boot[..BLOCK_SIZE] != SIGNATURE {
        CreateFat32();
      } else {
        LoadFat();
      }
    }

    /** The scan for a slot not in use. */
    method ScanSlot() returns (row: nat)
      requires Valid()
      ensures row == FirstDead(dirTable[..], FIRST_SLOT)
    {
      row := FIRST_SLOT;
      while row < TABLE_SIZE && dirTable[row].userAttribute == UATTR_NOT_EMPTY
        invariant FIRST_SLOT <= row <= TABLE_SIZE
        invariant FirstDead(dirTable[..], FIRST_SLOT) == FirstDead(dirTable[..], row)
      {
        row := row + 1;
      }
    }

    /** The scan for a slot with this name and extension. */
    method ScanKey(name: Name, ext: Ext, from: nat) returns (row: nat)
      requires Valid() && from <= TABLE_SIZE
      ensures row == FindKey(dirTable[..], name, ext, from)
    {
      row := from;
      while row < TABLE_SIZE && !(dirTable[row].name == name && dirTable[row].ext == ext)
        invariant from <= row <= TABLE_SIZE
        invariant FindKey(dirTable[..], name, ext, from) == FindKey(dirTable[..], name, ext, row)
      {
        row := row + 1;
      }
    }

    /** The scan for a free cell from `from` on. It runs to 2048 but stops inside the map of 512
        cells as long as one of them is free. */
    method ScanFree(from: nat) returns (i: nat)
      requires Valid() && from <= CLUSTER_MAP_SIZE && FreeFrom(Cached(), from) != []
      ensures from <= i < CLUSTER_MAP_SIZE && fatTable[i] == EMPTY_ENTRY
      ensures FreeFrom(Cached(), from) == [i] + FreeFrom(Cached(), i + 1)
    {
      i := from;
      while i < CLUSTER_SIZE && fatTable[i] != EMPTY_ENTRY
        invariant from <= i < CLUSTER_MAP_SIZE
        invariant FreeFrom(Cached(), from) == FreeFrom(Cached(), i)
      {
        i := i + 1;
      }
    }

    method Write(r: Request) returns (code: int)
      requires Valid() && CanWrite(Contents(), Cached(), r)
      modifies this`log, disk.image, fatTable, dirTable
      ensures code == WritePlan(old(Contents()), old(Cached()), r).code
      ensures Valid() && State() == After(old(State()), WritePlan(old(Contents()), old(Cached()), r))
    {
      hide ToVolume, DecodeTable, FilePlan, FolderPlan, Needed, Buffered;
      LoadDirectory(r.parent);
      if !(dirTable[0].userAttribute == UATTR_NOT_EMPTY && dirTable[0].attribute == ATTR_SUBDIRECTORY) {
        return 2;
      }
      var row := ScanSlot();
      if row == TABLE_SIZE { return -1; }
      var found := ScanKey(r.name, r.ext, FIRST_SLOT);
      if found < TABLE_SIZE { return 1; }
      if r.bufferSize == 0 {
        WriteFolder(r, row);
      } else {
        WriteFile(r, row);
      }
      code := 0;
    }

    method WriteFolder(r: Request, row: nat)
      requires Valid() && CanWrite(Contents(), Cached(), r) && r.bufferSize == 0
      requires dirTable[..] == Tab(Contents(), r.parent) && Admitted(Tab(Contents(), r.parent), r)
      requires row == FirstDead(dirTable[..], FIRST_SLOT)
      modifies this`log, disk.image, fatTable, dirTable
      ensures Valid() && State() == After(old(State()), FolderPlan(old(Contents()), old(Cached()), r))
    {
      hide ToVolume, Apply, EncodeTable, DecodeTable, EncodeFat, DecodeFat;
      ghost var v, fat := Contents(), Cached();
      ghost var p := FolderPlan(v, fat, r);
      var c := ScanFree(0);
      assert Picks(fat, 1)[0] == c;
      fatTable[c] := END_OF_FILE;
      assert fatTable[..] == Join(fat, [c]);
      WriteCluster(FAT_CLUSTER, EncodeFat(fatTable[..]));
      var newDir := NewTable(r.name, c, r.parent);
      dirTable[row] := newDir[0];
      WriteCluster(r.parent, EncodeTable(dirTable[..]));
      WriteCluster(c, EncodeTable(newDir));
      assert dirTable[..] == p.dir;
      assert log == old(log) + p.writes;
      ApplyConcat(base, old(log), p.writes);
    }

    method WriteFile(r: Request, row: nat)
      requires Valid() && CanWrite(Contents(), Cached(), r) && r.bufferSize > 0
      requires dirTable[..] == Tab(Contents(), r.parent) && Admitted(Tab(Contents(), r.parent), r)
      requires row == FirstDead(dirTable[..], FIRST_SLOT)
      modifies this`log, disk.image, fatTable, dirTable
      ensures Valid() && State() == After(old(State()), FilePlan(old(Contents()), old(Cached()), r))
    {
      hide ToVolume, Apply, EncodeTable, DecodeTable, EncodeFat, DecodeFat, FilePart;
      ghost var fat := Cached();
      ghost var p := FilePlan(Contents(), fat, r);
      ghost var cells := Picks(fat, Needed(r));
      PicksFree(fat, Needed(r));
      ghost var ws := FileWrites(r.buf, r.bufferSize, cells, Needed(r));
      assert p.writes == ws + [Put(FAT_CLUSTER, EncodeFat(p.fat)), Put(r.parent, EncodeTable(p.dir))];

      var start := WriteParts(r, cells);
      WriteCluster(FAT_CLUSTER, EncodeFat(fatTable[..]));
      dirTable[row] := MakeEntry(r.name, r.ext, 0, start, r.bufferSize);
      assert dirTable[..] == p.dir;
      WriteCluster(r.parent, EncodeTable(dirTable[..]));
      assert log == old(log) + ws + [Put(FAT_CLUSTER, EncodeFat(p.fat))] + [Put(r.parent, EncodeTable(p.dir))];
      assert log == old(log) + p.writes;
      ApplyConcat(base, old(log), p.writes);
    }

    /** Stores the file cluster by cluster, chaining the clusters in the cached table. */
    method WriteParts(r: Request, ghost cells: seq<nat>) returns (start: u32)
      requires Valid() && r.bufferSize > 0 && Buffered(r.buf, r.bufferSize)
      requires Needed(r) <= FreeCount(Cached()) && cells == Picks(Cached(), Needed(r)) && Free(Cached(), cells)
      modifies this`log, disk.image, fatTable
      ensures start == cells[0]
      ensures Valid() && Cached() == Join(old(Cached()), cells)
      ensures log == old(log) + FileWrites(r.buf, r.bufferSize, cells, Needed(r))
    {
      hide ToVolume, Apply, FilePart, FileWrites, Filling, FreeFrom, Join, Increasing;
      ghost var fat := Cached();
      var needed := r.bufferSize / CLUSTER_SIZE;
      var rest := r.bufferSize % CLUSTER_SIZE;
      if rest != 0 { needed := needed + 1; }
      ghost var n := needed;

      start := ScanFree(0);
      needed := needed - 1;
      assert FreeFrom(fat, 0)[0] == start;
      FillStart(fat, cells);
      WritePart(r, start, 0, needed + 1, rest);
      FileWritesNext(r.buf, r.bufferSize, cells, 0);
      fatTable[start] := END_OF_FILE;
      assert fatTable[..] == fat[start := END_OF_FILE];
      var part, last := 1, start;

      var i: u32 := start + 1;
      while i < CLUSTER_SIZE && needed > 0
        invariant 1 <= part <= n && needed == n - part
        invariant i <= CLUSTER_MAP_SIZE && last < CLUSTER_MAP_SIZE
        invariant Valid() && Filling(fat, cells, Cached(), i, part, last)
        invariant log == old(log) + FileWrites(r.buf, r.bufferSize, cells, part)
      {
        FillProgress(fat, cells, Cached(), i, part, last);
        if fatTable[i] == EMPTY_ENTRY {
          FillTake(fat, cells, Cached(), i, part, last);
          FileWritesNext(r.buf, r.bufferSize, cells, part);
          LinkPart(r, last, i, part, needed, rest);
          last := i;
          part := part + 1;
          needed := needed - 1;
        } else {
          FillSkip(fat, cells, Cached(), i, part, last);
        }
        i := i + 1;
      }
      FillDone(fat, cells, Cached(), i, last);
    }

    /** One turn of the loop: link the chain, ending at `last`, on to the free cell `i` and fill it. */
    method LinkPart(r: Request, last: u32, i: u32, part: nat, needed: nat, rest: nat)
      requires Valid() && Buffered(r.buf, r.bufferSize)
      requires last < CLUSTER_MAP_SIZE && i < CLUSTER_MAP_SIZE && 1 <= part < ClustersNeeded(r.bufferSize)
      requires needed == ClustersNeeded(r.bufferSize) - part && rest == r.bufferSize % CLUSTER_SIZE
      modifies this`log, disk.image, fatTable
      ensures Valid() && Cached() == Extend(old(Cached()), last, i)
      ensures log == old(log) + [Put(i, FilePart(r.buf, r.bufferSize, part))]
    {
      hide ToVolume, Apply, FilePart;
      fatTable[last] := i;
      ghost var linked := fatTable[..];
      assert linked[i := END_OF_FILE] == Extend(old(Cached()), last, i);
      WritePart(r, i, part, needed, rest);
      fatTable[i] := END_OF_FILE;
      assert fatTable[..] == linked[i := END_OF_FILE];
    }

    /** Builds the `part`-th cluster of the file in a buffer and writes it to cluster `c`. */
    method WritePart(r: Request, c: ClusterNo, part: nat, needed: nat, rest: nat)
      requires Valid() && Buffered(r.buf, r.bufferSize)
      requires part < ClustersNeeded(r.bufferSize) && needed == ClustersNeeded(r.bufferSize) - part
      requires rest == r.bufferSize % CLUSTER_SIZE
      modifies this`log, disk.image
      ensures Valid()
      ensures log == old(log) + [Put(c, FilePart(r.buf, r.bufferSize, part))]
    {
      var size := if needed == 1 && part > 0 then rest else CLUSTER_SIZE;
      var buffer := r.buf[CLUSTER_SIZE * part..CLUSTER_SIZE * part + size] + Zeros(CLUSTER_SIZE - size);
      assert buffer == FilePart(r.buf, r.bufferSize, part);
      WriteCluster(c, buffer);
    }

    method Delete(r: Request) returns (code: int)
      requires Valid() && CanDelete(Contents(), Cached(), r)
      modifies this`log, disk.image, fatTable, dirTable
      ensures code == DeletePlan(old(Contents()), old(Cached()), r).code
      ensures Valid() && State() == After(old(State()), DeletePlan(old(Contents()), old(Cached()), r))
    {
      hide ToVolume, DecodeTable, RemoveFilePlan, RemoveFolderPlan, NoChildren;
      LoadDirectory(r.parent);
      if !(dirTable[0].userAttribute == UATTR_NOT_EMPTY && dirTable[0].attribute == ATTR_SUBDIRECTORY) {
        return -1;
      }
      var row := ScanKey(r.name, r.ext, FIRST_SLOT);
      if row == TABLE_SIZE { return 1; }
      var c := FirstCluster(dirTable[row]);
      if dirTable[row].attribute == ATTR_SUBDIRECTORY {
        var target, empty := LoadChild(c);
        if !empty { return 2; }
        RemoveFolder(r, row, c, target);
      } else {
        RemoveFile(r, row, c);
      }
      code := 0;
    }

    /** Loads the directory to delete and scans it for entries in use. */
    method LoadChild(c: ClusterNo) returns (target: Table, empty: bool)
      requires Valid()
      ensures target == Tab(Contents(), c) && empty == NoChildren(target)
    {
      hide ToVolume, DecodeTable;
      var bytes := disk.ReadCluster(c);
      target := DecodeTable(bytes);
      var slot := FIRST_SLOT;
      while slot < TABLE_SIZE && target[slot].userAttribute != UATTR_NOT_EMPTY
        invariant FIRST_SLOT <= slot <= TABLE_SIZE
        invariant forall s :: FIRST_SLOT <= s < slot ==> !Live(target[s])
      {
        slot := slot + 1;
      }
      empty := slot == TABLE_SIZE;
    }

    method RemoveFolder(r: Request, row: nat, c: u32, target: Table)
      requires Valid() && row < TABLE_SIZE && dirTable[..] == Tab(Contents(), r.parent)
      requires c == FirstCluster(dirTable[row]) < CLUSTER_MAP_SIZE && target == Tab(Contents(), c)
      modifies this`log, disk.image, fatTable, dirTable
      ensures Valid()
      ensures State() == After(old(State()),
                RemoveFolderPlan(old(Contents()), old(Cached()), r.parent, old(dirTable[..]), row))
    {
      hide ToVolume, Apply, EncodeTable, DecodeTable, EncodeFat, DecodeFat;
      ghost var p := RemoveFolderPlan(Contents(), Cached(), r.parent, dirTable[..], row);
      dirTable[row] := dirTable[row].(name := NO_NAME, attribute := 0, userAttribute := 0);
      assert dirTable[..] == p.dir;
      WriteCluster(r.parent, EncodeTable(dirTable[..]));
      var wiped := target[0 := Wiped(target[0])][1 := Wiped(target[1])];
      WriteCluster(c, EncodeTable(wiped));
      fatTable[c] := EMPTY_ENTRY;
      assert fatTable[..] == p.fat;
      WriteCluster(FAT_CLUSTER, EncodeFat(fatTable[..]));
      assert log == old(log) + p.writes;
      ApplyConcat(base, old(log), p.writes);
    }

    method RemoveFile(r: Request, row: nat, first: u32)
      requires Valid() && row < TABLE_SIZE && dirTable[..] == Tab(Contents(), r.parent)
      requires first == FirstCluster(dirTable[row]) && Terminated(Cached(), first)
      modifies this`log, disk.image, fatTable, dirTable
      ensures Valid()
      ensures State() == After(old(State()),
                RemoveFilePlan(old(Cached()), r.parent, old(dirTable[..]), row))
    {
      hide ToVolume, Apply, EncodeTable, DecodeTable, EncodeFat, DecodeFat, Chain, Clear, Terminated, ZeroWrites,
           FirstCluster;
      ghost var p := RemoveFilePlan(Cached(), r.parent, dirTable[..], row);
      ChainCells(Cached(), first);
      ghost var cells := Chain(Cached(), first);
      dirTable[row] := ZERO_ENTRY;
      assert dirTable[..] == p.dir;
      WriteCluster(r.parent, EncodeTable(dirTable[..]));
      var last := ZeroChain(first);
      WriteCluster(FAT_CLUSTER, EncodeFat(fatTable[..]));
      WriteCluster(last, ZERO_CLUSTER);
      ghost var zeros := ZeroWrites(cells, |cells|);
      ghost var saved := Put(FAT_CLUSTER, EncodeFat(p.fat));
      assert p.writes == [Put(r.parent, EncodeTable(p.dir))] + zeros + [saved, Put(last, ZERO_CLUSTER)];
      assert log == old(log) + [Put(r.parent, EncodeTable(p.dir))] + zeros + [saved] + [Put(last, ZERO_CLUSTER)];
      assert log == old(log) + p.writes;
      ApplyConcat(base, old(log), p.writes);
    }

    /** Walks the chain from `first`, marking each cell empty and zeroing its cluster; returns the last. */
    method ZeroChain(first: u32) returns (c: u32)
      requires Valid() && first < CLUSTER_MAP_SIZE && Terminated(Cached(), first) && InMap(Chain(Cached(), first))
      modifies this`log, disk.image, fatTable
      ensures Valid()
      ensures c == old(Chain(Cached(), first)[|Chain(Cached(), first)| - 1])
      ensures Cached() == Clear(old(Cached()), old(Chain(Cached(), first)))
      ensures log == old(log) + ZeroWrites(old(Chain(Cached(), first)), |old(Chain(Cached(), first))|)
    {
      hide ToVolume, Apply, Terminated, Chain, Clear, Clearing, ZeroWrites, InMap;
      ghost var fat, cells, k := Cached(), Chain(Cached(), first), 0;
      ClearStart(fat, first);
      ZeroWritesNext(cells, 0);
      c := first;
      var next := ZeroCell(c);
      while next != END_OF_FILE
        invariant k < |cells|
        invariant Valid() && Clearing(fat, first, Cached(), k, c, next)
        invariant log == old(log) + ZeroWrites(cells, k + 1)
        decreases |cells| - k
      {
        ClearStep(fat, first, Cached(), k, c, next);
        ZeroWritesNext(cells, k + 1);
        k := k + 1;
        c := next;
        next := ZeroCell(c);
      }
      ClearDone(fat, first, Cached(), k, c);
    }

    method ZeroCell(c: u32) returns (next: u32)
      requires Valid() && c < CLUSTER_MAP_SIZE
      modifies this`log, disk.image, fatTable
      ensures Valid() && next == old(Cached()[c]) && Cached() == old(Cached())[c := EMPTY_ENTRY]
      ensures log == old(log) + [Put(c, ZERO_CLUSTER)]
    {
      next := fatTable[c];
      fatTable[c] := EMPTY_ENTRY;
      WriteCluster(c, ZERO_CLUSTER);
    }

    /** Copies a file into `buf`, cluster by cluster; the allocation table is reloaded first. */
    method Read(r: Request, buf: array<byte>) returns (code: int)
      requires Valid() && CanRead(Contents(), r)
      requires buf != disk.image && (buf as object) != fatTable
      requires CLUSTER_SIZE * ClustersNeeded(r.bufferSize) <= buf.Length
      modifies buf, fatTable, dirTable
      ensures code == ReadPlan(old(Contents()), r).code
      ensures |ReadPlan(old(Contents()), r).cells| * CLUSTER_SIZE <= buf.Length
      ensures buf[..] == Splice(old(buf[..]), 0, Content(old(Contents()), ReadPlan(old(Contents()), r).cells))
      ensures Valid() && State() == After(old(State()), Plan(code, [],
                if Live(Tab(Contents(), r.parent)[0]) then FatOn(Contents()) else old(Cached()),
                Tab(Contents(), r.parent)))
    {
      ReadFits(Contents(), r);
      hide ToVolume, DecodeTable, DecodeFat, Chain, Terminated, Content, Splice, FirstCluster, ClustersNeeded;
      LoadDirectory(r.parent);
      NothingCopied(Contents(), buf[..]);
      if dirTable[0].userAttribute != UATTR_NOT_EMPTY { return -1; }
      LoadFat();
      var row := ScanKey(r.name, r.ext, 0);
      if row == TABLE_SIZE { return 2; }
      if dirTable[row].attribute == ATTR_SUBDIRECTORY { return 1; }
      if r.bufferSize < dirTable[row].filesize { return -1; }
      ChainCells(Cached(), FirstCluster(dirTable[row]));
      CopyChain(FirstCluster(dirTable[row]), buf);
      code := 0;
    }

    method CopyChain(first: u32, buf: array<byte>)
      requires Valid() && Terminated(Cached(), first) && InMap(Chain(Cached(), first))
      requires buf != disk.image && (buf as object) != fatTable
      requires |Chain(Cached(), first)| * CLUSTER_SIZE <= buf.Length
      modifies buf
      ensures buf[..] == Splice(old(buf[..]), 0, Content(Contents(), Chain(Cached(), first)))
    {
      hide ToVolume, Apply, Splice, Content;
      ghost var cells := Chain(Cached(), first);
      var cluster, counter, more := first, 0, true;
      NothingCopied(Contents(), buf[..]);
      assert cells[..0] == [];
      while more
        invariant counter <= |cells| && InMap(cells[..counter])
        invariant cluster == if counter < |cells| then cells[counter] else END_OF_FILE
        invariant more <==> counter < |cells|
        invariant buf[..] == Splice(old(buf[..]), 0, Content(Contents(), cells[..counter]))
        decreases |cells| - counter
      {
        ChainLink(Cached(), first, counter);
        ContentExtend(Contents(), cells, counter);
        SpliceNext(old(buf[..]), 0, Content(Contents(), cells[..counter]), Contents()[cells[counter]]);
        CopyCluster(cluster, buf, CLUSTER_SIZE * counter);
        counter := counter + 1;
        cluster := fatTable[cluster];
        more := cluster != END_OF_FILE;
      }
      assert cells[..counter] == cells;
    }

    method CopyCluster(c: ClusterNo, buf: array<byte>, at: nat)
      requires Valid() && buf != disk.image && at + CLUSTER_SIZE <= buf.Length
      modifies buf
      ensures buf[..] == Splice(old(buf[..]), at, Contents()[c])
    {
      var bytes := disk.ReadCluster(c);
      forall i | 0 <= i < CLUSTER_SIZE { buf[at + i] := bytes[i]; }
    }

    /** Copies the table of a sub-directory into the caller's buffer, which held `before`. */
    method ReadDirectory(r: Request, before: Table) returns (code: int, table: Table)
      requires Valid() && CanReadDirectory(Contents(), r)
      modifies dirTable
      ensures code == ReadDirectoryPlan(Contents(), r).code
      ensures table == if code == 0 then Tab(Contents(), ReadDirectoryPlan(Contents(), r).cells[0]) else before
      ensures Valid() && State() == After(old(State()), Plan(code, [], old(Cached()), Tab(Contents(), r.parent)))
    {
      hide ToVolume, DecodeTable;
      table := before;
      LoadDirectory(r.parent);
      if dirTable[0].userAttribute != UATTR_NOT_EMPTY { return -1, table; }
      var row := 0;
      while row < TABLE_SIZE && dirTable[row].name != r.name
        invariant 0 <= row <= TABLE_SIZE
        invariant FindName(dirTable[..], r.name, 0) == FindName(dirTable[..], r.name, row)
      {
        row := row + 1;
      }
      if row == TABLE_SIZE { return 2, table; }
      if dirTable[row].attribute != ATTR_SUBDIRECTORY { return 1, table; }
      var bytes := disk.ReadCluster(FirstCluster(dirTable[row]));
      return 0, DecodeTable(bytes);
    }
  }
}
