/** The memory-backed disk of the inserter: one byte array, copied block by block. */
module BlockDevice {
  import opened Types

  function ClusterOf(image: seq<byte>, n: nat): Cluster
    requires |image| == IMAGE_CLUSTERS * CLUSTER_SIZE && n < IMAGE_CLUSTERS
  {
    image[CLUSTER_SIZE * n..CLUSTER_SIZE * n + CLUSTER_SIZE]
  }

  function ToVolume(image: seq<byte>): Volume
    requires |image| == IMAGE_CLUSTERS * CLUSTER_SIZE
  {
    seq<Cluster>(IMAGE_CLUSTERS, n requires 0 <= n < IMAGE_CLUSTERS => ClusterOf(image, n))
  }

  /** `image` with `data` copied over it from byte `at`. */
  function Splice(image: seq<byte>, at: nat, data: seq<byte>): (r: seq<byte>)
    requires at + |data| <= |image|
    ensures |r| == |image|
  {
    image[..at] + data + image[at + |data|..]
  }

  lemma SpliceNext(image: seq<byte>, at: nat, a: seq<byte>, b: seq<byte>)
    requires at + |a| + |b| <= |image|
    ensures Splice(Splice(image, at, a), at + |a|, b) == Splice(image, at, a + b)
  {
    var once := Splice(image, at, a);
    assert once[..at + |a|] == image[..at] + a;
    assert once[at + |a| + |b|..] == image[at + |a| + |b|..];
  }

  lemma SpliceCluster(image: seq<byte>, n: nat, c: Cluster)
    requires |image| == IMAGE_CLUSTERS * CLUSTER_SIZE && n < IMAGE_CLUSTERS
    ensures ToVolume(Splice(image, CLUSTER_SIZE * n, c)) == ToVolume(image)[n := c]
  {
    var r := Splice(image, CLUSTER_SIZE * n, c);
    forall m | 0 <= m < IMAGE_CLUSTERS ensures ToVolume(r)[m] == ToVolume(image)[n := c][m] {
      if m != n {
        assert ClusterOf(r, m) == ClusterOf(image, m);
      } else {
        assert ClusterOf(r, m) == c;
      }
    }
  }

  class Disk {
    const image: array<byte>

    ghost predicate Valid() {
      image.Length == IMAGE_CLUSTERS * CLUSTER_SIZE
    }

    /** The image as a sequence of clusters. */
    ghost function Clusters(): Volume
      reads image
      requires Valid()
    {
      ToVolume(image[..])
    }

    /** An image holding zeros only. */
    constructor ()
      ensures Valid() && fresh(image)
      ensures Clusters() == seq<Cluster>(IMAGE_CLUSTERS, n => ZERO_CLUSTER)
    {
      image := new byte[IMAGE_CLUSTERS * CLUSTER_SIZE](i => 0);
      new;
      forall n | 0 <= n < IMAGE_CLUSTERS ensures ClusterOf(image[..], n) == ZERO_CLUSTER {
      }
    }

    method ReadBlocks(lba: nat, count: nat) returns (data: seq<byte>)
      requires Valid() && BLOCK_SIZE * (lba + count) <= image.Length
      ensures data == image[BLOCK_SIZE * lba..BLOCK_SIZE * (lba + count)]
    {
      data := [];
      for i := 0 to count
        invariant data == image[BLOCK_SIZE * lba..BLOCK_SIZE * (lba + i)]
      {
        data := data + image[BLOCK_SIZE * (lba + i)..BLOCK_SIZE * (lba + i + 1)];
      }
    }

    /** The copy of one block. */
    method WriteBlock(at: nat, block: seq<byte>)
      requires Valid() && |block| == BLOCK_SIZE && at + BLOCK_SIZE <= image.Length
      modifies image
      ensures image[..] == Splice(old(image[..]), at, block)
    {
      forall j | 0 <= j < BLOCK_SIZE { image[at + j] := block[j]; }
    }

    method WriteBlocks(data: seq<byte>, lba: nat, count: nat)
      requires Valid() && BLOCK_SIZE * (lba + count) <= image.Length
      requires |data| == BLOCK_SIZE * count
      modifies image
      ensures image[..] == Splice(old(image[..]), BLOCK_SIZE * lba, data)
    {
      for i := 0 to count
        invariant image[..] == Splice(old(image[..]), BLOCK_SIZE * lba, data[..BLOCK_SIZE * i])
      {
        var block := data[BLOCK_SIZE * i..BLOCK_SIZE * (i + 1)];
        WriteBlock(BLOCK_SIZE * (lba + i), block);
        SpliceNext(old(image[..]), BLOCK_SIZE * lba, data[..BLOCK_SIZE * i], block);
        assert data[..BLOCK_SIZE * (i + 1)] == data[..BLOCK_SIZE * i] + block;
      }
      assert data[..BLOCK_SIZE * count] == data;
    }

    /** `read_clusters` for a single cluster. */
    method ReadCluster(n: nat) returns (c: Cluster)
      requires Valid() && n < IMAGE_CLUSTERS
      ensures c == Clusters()[n]
    {
      c := ReadBlocks(CLUSTER_BLOCK_COUNT * n, CLUSTER_BLOCK_COUNT);
    }

    /** `write_clusters` for a single cluster. */
    method WriteCluster(n: nat, c: Cluster)
      requires Valid() && n < IMAGE_CLUSTERS
      modifies image
      ensures Clusters() == old(Clusters())[n := c]
    {
      SpliceCluster(image[..], n, c);
      WriteBlocks(c, CLUSTER_BLOCK_COUNT * n, CLUSTER_BLOCK_COUNT);
    }
  }
}
