/** Formatting cut off: the signature goes first, so a half-formatted disk passes for a formatted one. */
module FormatCuts {
  import opened Types
  import opened Layout
  import opened Operations
  import opened Structure
  import opened Preservation
  import opened Guarantees

  /** What initialising makes of a disk: the disk itself when it is signed, and a formatted one otherwise. */
  function Mounted(v: Volume): (Volume, Fat) {
    if Signed(v) then (v, FatOn(v)) else (Apply(v, FormatWrites(v)), FIRST_FAT)
  }

  /** A disk worth formatting: not signed, no root directory on it, no entry in use above the root. */
  predicate Unformatted(v: Volume) {
    && !Signed(v) && !Live(Tab(v, ROOT_CLUSTER)[0])
    && forall c :: ROOT_CLUSTER < c < CLUSTER_MAP_SIZE ==> AllDead(Tab(v, c))
  }

  /** Formatting is recovered by the next initialisation exactly when none or all of its three writes were
      made. After one or two, the disk is taken as it is, now and at every later initialisation, and is a
      tree of no shape. */
  lemma FormatCutExact(v: Volume, k: nat)
    requires Unformatted(v) && k <= 3
    ensures |FormatWrites(v)| == 3
    ensures var m := Mounted(Apply(v, FormatWrites(v)[..k]));
            && ((exists g :: Inv(m.0, m.1, g)) <==> k == 0 || k == 3)
            && Mounted(m.0) == m
  {
    hide DecodeTable, EncodeTable, DecodeFat, EncodeFat, Inv, Signed, FatOn, Apply, AllDead;
    var ws := FormatWrites(v);
    FormatInv(v);
    FormattedSigned(v);
    if k == 0 || k == 3 {
      ApplyNone(v, ws);
      assert ws[..3] == ws;
      var m := Mounted(Apply(v, ws[..k]));
      assert m == (Apply(v, ws), FIRST_FAT);
      assert Inv(m.0, m.1, ROOT_SHAPE);
    } else {
      HalfFormatted(v, k);
    }
  }

  lemma FormattedSigned(v: Volume)
    requires forall c :: ROOT_CLUSTER < c < CLUSTER_MAP_SIZE ==> AllDead(Tab(v, c))
    ensures var v' := Apply(v, FormatWrites(v)); Signed(v') && FatOn(v') == FIRST_FAT && Mounted(v') == (v', FIRST_FAT)
  {
    hide DecodeTable, EncodeTable, DecodeFat, EncodeFat, Orderly, AllDead, FormatWrites;
    FormatInv(v);
  }

  lemma HalfFormatted(v: Volume, k: nat)
    requires Unformatted(v) && 1 <= k <= 2
    ensures var v' := Apply(v, FormatWrites(v)[..k]); Signed(v') && forall g :: !Inv(v', FatOn(v'), g)
  {
    hide DecodeTable, EncodeTable, DecodeFat, EncodeFat, AllDead, SIGNATURE;
    var ws := FormatWrites(v);
    var v' := Apply(v, ws[..k]);
    ApplyOne(v, ws[0]);
    ApplyTwo(v, [], ws[0], ws[1]);
    ApplyNone(v, []);
    assert ws[..1] == [ws[0]] && ws[..2] == [] + [ws[0], ws[1]];
    assert v'[BOOT_SECTOR] == ws[0].content && v'[ROOT_CLUSTER] == v[ROOT_CLUSTER];
    assert ws[0].content[..BLOCK_SIZE] == SIGNATURE;
    forall g ensures !Inv(v', FatOn(v'), g) {
      if Inv(v', FatOn(v'), g) { RootLive(v', FatOn(v'), g); }
    }
  }

  lemma RootLive(v: Volume, fat: Fat, g: Shape)
    requires Inv(v, fat, g)
    ensures Live(Tab(v, ROOT_CLUSTER)[0])
  {
    hide DecodeTable, DecodeFat;
    LiveTable(v, fat, g, ROOT_CLUSTER);
  }

  /** A blank image is worth formatting. */
  lemma BlankUnformatted(v: Volume)
    requires forall c :: 0 <= c < IMAGE_CLUSTERS ==> v[c] == ZERO_CLUSTER
    ensures Unformatted(v)
  {
    hide DecodeTable;
    BlankDisk(v);
    var last := BLOCK_SIZE - 1;
    assert SIGNATURE[last] == 0x6B && v[BOOT_SECTOR][..BLOCK_SIZE][last] == 0;
  }
}
