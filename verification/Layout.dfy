/** How directory tables and the file allocation table lie in the bytes of one cluster.
    The C structures are packed overlays of the cluster, so reading a cluster into a structure is
    `Decode...` and writing a structure out is `Encode...`; both are bijections on clusters. */
module Layout {
  import opened Types

  /** One 32-byte directory entry; `stamps` and `modified` are the fields no code looks at. */
  datatype Entry = Entry(name: Name, ext: Ext, attribute: byte, userAttribute: byte, stamps: Stamps,
                         clusterHigh: u16, modified: Modified, clusterLow: u16, filesize: u32)
  type Stamps = s: seq<byte> | |s| == 7 witness Zeros(7)
  type Modified = s: seq<byte> | |s| == 4 witness Zeros(4)

  type Table = t: seq<Entry> | |t| == 64 witness seq(64, i => ZERO_ENTRY)

  const ZERO_ENTRY: Entry := Entry(Zeros(8), Zeros(3), 0, 0, Zeros(7), 0, Zeros(4), 0, 0)

  predicate Live(e: Entry) { e.userAttribute == UATTR_NOT_EMPTY }

  predicate IsDir(e: Entry) { e.attribute == ATTR_SUBDIRECTORY }

  predicate Matches(e: Entry, name: Name, ext: Ext) { e.name == name && e.ext == ext }

  function FirstCluster(e: Entry): u32 { e.clusterHigh * 0x1_0000 + e.clusterLow }

  /** The entry the driver builds for cluster `c`, which it splits into two 16-bit halves. */
  function MakeEntry(name: Name, ext: Ext, attribute: byte, c: u32, filesize: u32): Entry
  {
    Entry(name, ext, attribute, UATTR_NOT_EMPTY, Zeros(7), c / 0x1_0000, Zeros(4), c % 0x1_0000, filesize)
  }

  function Le16(x: u16): seq<byte> { [x % 0x100, x / 0x100] }

  function UnLe16(b: seq<byte>): u16
    requires |b| == 2
  {
    (b[0] as int) + 0x100 * (b[1] as int)
  }

  function Le32(x: u32): (b: seq<byte>)
    ensures |b| == 4
  {
    Le16(x % 0x1_0000) + Le16(x / 0x1_0000)
  }

  function UnLe32(b: seq<byte>): u32
    requires |b| == 4
  {
    UnLe16(b[..2]) + 0x1_0000 * UnLe16(b[2..])
  }

  lemma Le32RoundTrip(x: u32)
    ensures UnLe32(Le32(x)) == x
  {
    assert Le32(x)[..2] == Le16(x % 0x1_0000) && Le32(x)[2..] == Le16(x / 0x1_0000);
  }

  lemma UnLe32RoundTrip(b: seq<byte>)
    requires |b| == 4
    ensures Le32(UnLe32(b)) == b
  {
    var lo, hi := UnLe16(b[..2]), UnLe16(b[2..]);
    assert UnLe32(b) % 0x1_0000 == lo && UnLe32(b) / 0x1_0000 == hi;
  }

  function EncodeEntry(e: Entry): (b: seq<byte>)
    ensures |b| == 32
  {
    e.name + e.ext + [e.attribute, e.userAttribute] + e.stamps + Le16(e.clusterHigh)
    + e.modified + Le16(e.clusterLow) + Le32(e.filesize)
  }

  function DecodeEntry(b: seq<byte>): Entry
    requires |b| == 32
  {
    Entry(b[..8], b[8..11], b[11], b[12], b[13..20], UnLe16(b[20..22]), b[22..26], UnLe16(b[26..28]), UnLe32(b[28..]))
  }

  lemma EntryRoundTrip(e: Entry)
    ensures DecodeEntry(EncodeEntry(e)) == e
  {
    var b := EncodeEntry(e);
    assert b[..8] == e.name && b[8..11] == e.ext && b[13..20] == e.stamps && b[22..26] == e.modified;
    assert b[20..22] == Le16(e.clusterHigh) && b[26..28] == Le16(e.clusterLow);
    assert b[28..] == Le32(e.filesize);
    Le32RoundTrip(e.filesize);
  }

  lemma EntryBytes(b: seq<byte>)
    requires |b| == 32
    ensures EncodeEntry(DecodeEntry(b)) == b
  {
    UnLe32RoundTrip(b[28..]);
    assert Le16(UnLe16(b[20..22])) == b[20..22] && Le16(UnLe16(b[26..28])) == b[26..28];
  }

  function EncodeEntries(t: seq<Entry>): (b: seq<byte>)
    ensures |b| == 32 * |t|
  {
    if t == [] then [] else EncodeEntry(t[0]) + EncodeEntries(t[1..])
  }

  function DecodeEntries(b: seq<byte>): (t: seq<Entry>)
    requires |b| % 32 == 0
    ensures |t| == |b| / 32
  {
    if b == [] then [] else [DecodeEntry(b[..32])] + DecodeEntries(b[32..])
  }

  function EncodeTable(t: Table): Cluster { EncodeEntries(t) }

  function DecodeTable(c: Cluster): Table { DecodeEntries(c) }

  lemma {:induction false} EntriesRoundTrip(t: seq<Entry>)
    ensures DecodeEntries(EncodeEntries(t)) == t
  {
    if t != [] {
      var b := EncodeEntries(t);
      assert b[..32] == EncodeEntry(t[0]) && b[32..] == EncodeEntries(t[1..]);
      EntryRoundTrip(t[0]);
      EntriesRoundTrip(t[1..]);
    }
  }

  lemma {:induction false} EntriesBytes(b: seq<byte>)
    requires |b| % 32 == 0
    ensures EncodeEntries(DecodeEntries(b)) == b
  {
    if b != [] {
      EntryBytes(b[..32]);
      EntriesBytes(b[32..]);
      assert b == b[..32] + b[32..];
    }
  }

  /** A table read back from the cluster it was written to is the same table, and conversely. */
  lemma TableOverlay(t: Table, c: Cluster)
    ensures DecodeTable(EncodeTable(t)) == t
    ensures EncodeTable(DecodeTable(c)) == c
  {
    EntriesRoundTrip(t);
    EntriesBytes(c);
  }

  lemma {:induction false} ZeroEntries(b: seq<byte>, i: nat)
    requires |b| % 32 == 0 && i < |b| / 32
    requires forall k :: 0 <= k < |b| ==> b[k] == 0
    ensures DecodeEntries(b)[i] == ZERO_ENTRY
  {
    if i == 0 {
      var h := b[..32];
      assert h[..8] == Zeros(8) && h[8..11] == Zeros(3) && h[13..20] == Zeros(7) && h[22..26] == Zeros(4);
      assert h[20..22] == [0, 0] && h[26..28] == [0, 0] && h[28..] == [0, 0, 0, 0];
    } else {
      ZeroEntries(b[32..], i - 1);
    }
  }

  lemma ZeroTable()
    ensures forall i :: 0 <= i < 64 ==> DecodeTable(ZERO_CLUSTER)[i] == ZERO_ENTRY
  {
    forall i | 0 <= i < 64 ensures DecodeTable(ZERO_CLUSTER)[i] == ZERO_ENTRY {
      ZeroEntries(ZERO_CLUSTER, i);
    }
  }

  function EncodeCells(f: seq<u32>): (b: seq<byte>)
    ensures |b| == 4 * |f|
  {
    if f == [] then [] else Le32(f[0]) + EncodeCells(f[1..])
  }

  function DecodeCells(b: seq<byte>): (f: seq<u32>)
    requires |b| % 4 == 0
    ensures |f| == |b| / 4
  {
    if b == [] then [] else [UnLe32(b[..4])] + DecodeCells(b[4..])
  }

  function EncodeFat(f: Fat): Cluster { EncodeCells(f) }

  function DecodeFat(c: Cluster): Fat { DecodeCells(c) }

  lemma {:induction false} CellsRoundTrip(f: seq<u32>)
    ensures DecodeCells(EncodeCells(f)) == f
  {
    if f != [] {
      var b := EncodeCells(f);
      assert b[..4] == Le32(f[0]) && b[4..] == EncodeCells(f[1..]);
      Le32RoundTrip(f[0]);
      CellsRoundTrip(f[1..]);
    }
  }

  lemma {:induction false} CellsBytes(b: seq<byte>)
    requires |b| % 4 == 0
    ensures EncodeCells(DecodeCells(b)) == b
  {
    if b != [] {
      UnLe32RoundTrip(b[..4]);
      CellsBytes(b[4..]);
      assert b == b[..4] + b[4..];
    }
  }

  /** The allocation table read back from its cluster is the one written, and conversely. */
  lemma FatOverlay(f: Fat, c: Cluster)
    ensures DecodeFat(EncodeFat(f)) == f
    ensures EncodeFat(DecodeFat(c)) == c
  {
    CellsRoundTrip(f);
    CellsBytes(c);
  }
}
