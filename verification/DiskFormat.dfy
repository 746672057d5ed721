/** The bytes on disk, one by one: numbers have their least significant byte first. */
module DiskFormat {
  import opened Types
  import opened Layout
  import opened BlockDevice
  import opened Operations
  import opened Preservation

  /** Byte `b` of the number `n`, counted from the least significant one. */
  function ByteOf(n: nat, b: nat): nat { if b == 0 then n % 256 else ByteOf(n / 256, b - 1) }

  /** The byte `i` of cluster `n` lies at 2048 * n + i in the image. */
  lemma ImageBytes(image: seq<byte>, n: nat, i: nat)
    requires |image| == 4194304 && n < 2048 && i < 2048
    ensures ToVolume(image)[n][i] == image[2048 * n + i]
  {
    assert ToVolume(image)[n] == ClusterOf(image, n);
  }

  // ----- the allocation table -----

  lemma LowestFirst(n: u32)
    ensures Le32(n) == [ByteOf(n, 0), ByteOf(n, 1), ByteOf(n, 2), ByteOf(n, 3)]
  {
    assert n / 256 % 256 == n % 65536 / 256;
    assert n / 256 / 256 == n / 65536;
    assert n / 65536 / 256 % 256 == n / 65536 / 256;
    UnfoldBytes(n);
  }

  lemma UnfoldBytes(n: nat)
    ensures ByteOf(n, 1) == n / 256 % 256 && ByteOf(n, 2) == n / 256 / 256 % 256
    ensures ByteOf(n, 3) == n / 256 / 256 / 256 % 256
  {
    assert ByteOf(n, 3) == ByteOf(n / 256, 2) == ByteOf(n / 256 / 256, 1) == ByteOf(n / 256 / 256 / 256, 0);
    assert ByteOf(n, 2) == ByteOf(n / 256, 1) == ByteOf(n / 256 / 256, 0);
    assert ByteOf(n, 1) == ByteOf(n / 256, 0);
  }

  lemma {:induction false} CellBytes(f: seq<u32>, i: nat, b: nat)
    requires i < |f| && b < 4
    ensures EncodeCells(f)[4 * i + b] == ByteOf(f[i], b)
  {
    hide ByteOf, Le32;
    LowestFirst(f[0]);
    if i > 0 {
      CellBytes(f[1..], i - 1, b);
      assert EncodeCells(f)[4 * i + b] == EncodeCells(f[1..])[4 * (i - 1) + b];
    }
  }

  /** An allocation table is written, and read, cell by cell in four bytes each. */
  lemma FatBytes(f: Fat, c: Cluster, i: nat, b: nat)
    requires i < 512 && b < 4
    ensures EncodeFat(f)[4 * i + b] == ByteOf(f[i], b)
    ensures c[4 * i + b] == ByteOf(DecodeFat(c)[i], b)
  {
    hide DecodeFat, ByteOf;
    FatOverlay(f, c);
    CellBytes(f, i, b);
    CellBytes(DecodeFat(c), i, b);
  }

  // ----- directory entries -----

  /** The 32 bytes `b` spell out a directory entry: its name in 8 bytes, its extension in 3, its attribute and
      its mark in one each, the high half of its cluster at 20, the low half at 26, and its size at 28. The other
      bytes, dates and the like, are `stamps` and `modified`. */
  predicate Spelled(b: seq<byte>, name: Name, ext: Ext, attribute: byte, mark: byte, cluster: nat, size: nat,
                    stamps: Stamps, modified: Modified)
    requires |b| == 32
  {
    && b[0..8] == name && b[8..11] == ext && b[11] == attribute && b[12] == mark
    && b[13..20] == stamps && b[22..26] == modified
    && b[20] == ByteOf(cluster, 2) && b[21] == ByteOf(cluster, 3)
    && b[26] == ByteOf(cluster, 0) && b[27] == ByteOf(cluster, 1)
    && b[28] == ByteOf(size, 0) && b[29] == ByteOf(size, 1) && b[30] == ByteOf(size, 2) && b[31] == ByteOf(size, 3)
  }

  lemma HalfBytes(high: u16, low: u16)
    ensures var c := high * 65536 + low;
            Le16(low) == [ByteOf(c, 0), ByteOf(c, 1)] && Le16(high) == [ByteOf(c, 2), ByteOf(c, 3)]
  {
    var c := high * 65536 + low;
    UnfoldBytes(c);
    assert c / 256 == high * 256 + low / 256;
    assert c / 256 / 256 == high;
    assert c % 256 == low % 256 && (c / 256) % 256 == low / 256;
    assert high / 256 % 256 == high / 256;
  }

  lemma EntrySpelled(e: Entry)
    ensures Spelled(EncodeEntry(e), e.name, e.ext, e.attribute, e.userAttribute, FirstCluster(e), e.filesize,
                    e.stamps, e.modified)
  {
    hide ByteOf, Le16, Le32;
    HalfBytes(e.clusterHigh, e.clusterLow);
    LowestFirst(e.filesize);
  }

  lemma {:induction false} EntryPlace(t: seq<Entry>, i: nat, j: nat)
    requires i < |t| && j < 32
    ensures EncodeEntries(t)[32 * i + j] == EncodeEntry(t[i])[j]
  {
    hide EncodeEntry;
    if i > 0 {
      EntryPlace(t[1..], i - 1, j);
      assert EncodeEntries(t)[32 * i + j] == EncodeEntries(t[1..])[32 * (i - 1) + j];
    }
  }

  /** Entry `i` of a table takes the 32 bytes from 32 * i on. */
  lemma EntrySlice(t: Table, i: nat)
    requires i < 64
    ensures EncodeTable(t)[32 * i..32 * i + 32] == EncodeEntry(t[i])
  {
    hide EncodeEntry;
    forall j | 0 <= j < 32 ensures EncodeTable(t)[32 * i..32 * i + 32][j] == EncodeEntry(t[i])[j] {
      EntryPlace(t, i, j);
    }
  }

  /** Those bytes spell it out, in a table written and in a cluster read. */
  lemma TableBytes(t: Table, c: Cluster, i: nat)
    requires i < 64
    ensures var e := t[i];
            Spelled(EncodeTable(t)[32 * i..32 * i + 32], e.name, e.ext, e.attribute, e.userAttribute, FirstCluster(e),
                    e.filesize, e.stamps, e.modified)
    ensures var e := DecodeTable(c)[i];
            Spelled(c[32 * i..32 * i + 32], e.name, e.ext, e.attribute, e.userAttribute, FirstCluster(e),
                    e.filesize, e.stamps, e.modified)
  {
    hide ByteOf, EncodeEntry, EncodeTable, DecodeTable;
    EntrySlice(t, i);
    EntrySpelled(t[i]);
    EntrySlice(DecodeTable(c), i);
    EntrySpelled(DecodeTable(c)[i]);
    TableOverlay(t, c);
  }

  // ----- a formatted disk -----

  /** The boot block holds five rows of text, then zeros, and "Ok" at its end. */
  lemma SignatureBytes()
    ensures SIGNATURE[0..16] ==
            ['C' as int, 'o' as int, 'u' as int, 'r' as int, 's' as int, 'e' as int, ' ' as int, ' ' as int,
             ' ' as int, ' ' as int, ' ' as int, ' ' as int, ' ' as int, ' ' as int, ' ' as int, ' ' as int]
    ensures SIGNATURE[16..32] ==
            ['D' as int, 'e' as int, 's' as int, 'i' as int, 'g' as int, 'n' as int, 'e' as int, 'd' as int,
             ' ' as int, 'b' as int, 'y' as int, ' ' as int, ' ' as int, ' ' as int, ' ' as int, ' ' as int]
    ensures SIGNATURE[32..48] ==
            ['L' as int, 'a' as int, 'b' as int, ' ' as int, 'S' as int, 'i' as int, 's' as int, 't' as int,
             'e' as int, 'r' as int, ' ' as int, 'I' as int, 'T' as int, 'B' as int, ' ' as int, ' ' as int]
    ensures SIGNATURE[48..64] ==
            ['M' as int, 'a' as int, 'd' as int, 'e' as int, ' ' as int, 'w' as int, 'i' as int, 't' as int,
             'h' as int, ' ' as int, '<' as int, '3' as int, ' ' as int, ' ' as int, ' ' as int, ' ' as int]
    ensures SIGNATURE[64..80] ==
            ['-' as int, '-' as int, '-' as int, '-' as int, '-' as int, '-' as int, '-' as int, '-' as int,
             '-' as int, '-' as int, '-' as int, '2' as int, '0' as int, '2' as int, '3' as int, '\n' as int]
    ensures SIGNATURE[80..510] == Zeros(430) && SIGNATURE[510..] == ['O' as int, 'k' as int]
  {
    assert SIGNATURE[0..16] == ROW_1 && SIGNATURE[16..32] == ROW_2 && SIGNATURE[32..48] == ROW_3;
    assert SIGNATURE[48..64] == ROW_4 && SIGNATURE[64..80] == ROW_5;
  }

  /** A disk is taken for formatted exactly when each of the 512 bytes of the boot block is right; if any one
      differs it is formatted. */
  lemma SignedExactly(v: Volume)
    ensures |SIGNATURE| == 512
    ensures Signed(v) <==> forall i :: 0 <= i < 512 ==> v[0][i] == SIGNATURE[i]
  {
    assert |SIGNATURE| == 512;
    hide SIGNATURE;
    assert forall i :: 0 <= i < 512 ==> v[0][..512][i] == v[0][i];
  }

  /** The 32 bytes of an entry of the root: a name of up to 4 characters, a directory, cluster 2. */
  function RootEntryBytes(name: string): seq<byte>
    requires |name| == 4 && forall i :: 0 <= i < 4 ==> name[i] as int < 256
  {
    [name[0] as int, name[1] as int, name[2] as int, name[3] as int] + [0, 0, 0, 0] + [0, 0, 0] + [0x10, 0xAA]
    + [0, 0, 0, 0, 0, 0, 0] + [0, 0] + [0, 0, 0, 0] + [2, 0] + [0, 0, 0, 0]
  }

  /** What formatting writes: the boot block, the reserved cells of the allocation table with all others empty,
      and the root with itself and its parent, which is itself, and no other entry. */
  lemma FormattedBytes(v: Volume)
    ensures var v' := Apply(v, FormatWrites(v));
            && v'[0] == SIGNATURE + v[0][512..]
            && v'[1] == [0xF0, 0xFF, 0xFF, 0x0F, 0xFF, 0xFF, 0xFF, 0x0F, 0xFF, 0xFF, 0xFF, 0x0F] + Zeros(2036)
            && v'[2] == RootEntryBytes("root") + RootEntryBytes("..\0\0") + Zeros(1984)
            && forall c :: 3 <= c < 2048 ==> v'[c] == v[c]
  {
    hide EncodeFat, EncodeTable, SIGNATURE, FIRST_FAT, ROOT_TABLE;
    var ws := FormatWrites(v);
    assert ws == [ws[0], ws[1], ws[2]];
    ApplyThree(v, ws[0], ws[1], ws[2]);
    FirstFatBytes();
    RootTableBytes();
  }

  lemma FirstFatBytes()
    ensures EncodeFat(FIRST_FAT) ==
            [0xF0, 0xFF, 0xFF, 0x0F, 0xFF, 0xFF, 0xFF, 0x0F, 0xFF, 0xFF, 0xFF, 0x0F] + Zeros(2036)
  {
    var f := FIRST_FAT;
    var g, h := f[1..], f[1..][1..];
    assert h[1..] == Zeros(509) && g[0] == f[1] && h[0] == f[2];
    assert Le32(f[0]) == [0xF0, 0xFF, 0xFF, 0x0F] && Le32(f[1]) == Le32(f[2]) == [0xFF, 0xFF, 0xFF, 0x0F];
    assert EncodeCells(h) == Le32(h[0]) + EncodeCells(h[1..]);
    assert EncodeCells(g) == Le32(g[0]) + EncodeCells(h);
    ZeroCells(509);
  }

  lemma {:induction false} ZeroCells(n: nat)
    ensures EncodeCells(Zeros(n)) == Zeros(4 * n)
  {
    if n > 0 {
      assert Zeros(n)[1..] == Zeros(n - 1);
      ZeroCells(n - 1);
    }
  }

  lemma RootEntries()
    ensures EncodeEntry(DirEntry(ROOT_NAME, ROOT_CLUSTER)) == RootEntryBytes("root")
    ensures EncodeEntry(DirEntry(DOTDOT, ROOT_CLUSTER)) == RootEntryBytes("..\0\0")
  {
    RootEntry(ROOT_NAME, "root");
    RootEntry(DOTDOT, "..\0\0");
  }

  lemma RootEntry(n: Name, name: string)
    requires |name| == 4 && n == [name[0] as int, name[1] as int, name[2] as int, name[3] as int] + [0, 0, 0, 0]
    requires forall i :: 0 <= i < 4 ==> name[i] as int < 256
    ensures EncodeEntry(DirEntry(n, 2)) == RootEntryBytes(name)
  {
    hide Le16, Le32;
    var e := DirEntry(n, 2);
    assert Zeros(7) == [0, 0, 0, 0, 0, 0, 0] && Zeros(4) == [0, 0, 0, 0] && NO_EXT == [0, 0, 0];
    TwoAndZero();
  }

  lemma TwoAndZero()
    ensures Le16(0) == [0, 0] && Le16(2) == [2, 0] && Le32(0) == [0, 0, 0, 0]
  {
  }

  lemma RootTableBytes()
    ensures EncodeTable(ROOT_TABLE) == RootEntryBytes("root") + RootEntryBytes("..\0\0") + Zeros(1984)
  {
    hide EncodeEntry, RootEntryBytes;
    var t := ROOT_TABLE;
    assert t[0] == DirEntry(ROOT_NAME, ROOT_CLUSTER) && t[1] == DirEntry(DOTDOT, ROOT_CLUSTER);
    assert t[1..][1..] == seq<Entry>(62, i => ZERO_ENTRY);
    RootEntries();
    assert EncodeEntries(t) == EncodeEntry(t[0]) + (EncodeEntry(t[1]) + EncodeEntries(t[1..][1..]));
    ZeroEntryBytes(62);
  }

  lemma {:induction false} ZeroEntryBytes(n: nat)
    ensures EncodeEntries(seq<Entry>(n, i => ZERO_ENTRY)) == Zeros(32 * n)
  {
    if n > 0 {
      assert seq<Entry>(n, i => ZERO_ENTRY)[1..] == seq<Entry>(n - 1, i => ZERO_ENTRY);
      ZeroEntryBytes(n - 1);
      assert EncodeEntry(ZERO_ENTRY) == Zeros(32);
    }
  }
}
