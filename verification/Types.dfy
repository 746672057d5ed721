/** The integer widths and on-disk constants of the file system. */
module Types {

  type byte = x: int | 0 <= x < 0x100
  type u16 = x: int | 0 <= x < 0x1_0000
  type u32 = x: int | 0 <= x < 0x1_0000_0000

  const BLOCK_SIZE := 512
  const CLUSTER_BLOCK_COUNT := 4
  const CLUSTER_SIZE := 2048
  const CLUSTER_MAP_SIZE := 512
  /** The image the inserter holds in memory: 4 MiB, that is 2048 clusters. */
  const IMAGE_CLUSTERS := 2048

  const CLUSTER_0_VALUE: u32 := 0x0FFF_FFF0
  const CLUSTER_1_VALUE: u32 := 0x0FFF_FFFF
  const END_OF_FILE: u32 := 0x0FFF_FFFF
  const EMPTY_ENTRY: u32 := 0

  const BOOT_SECTOR := 0
  const FAT_CLUSTER := 1
  const ROOT_CLUSTER := 2

  const ATTR_SUBDIRECTORY: byte := 0x10
  const UATTR_NOT_EMPTY: byte := 0xAA

  /** Entries in one directory table; the first two are the directory itself and its parent. */
  const TABLE_SIZE := 64
  const FIRST_SLOT := 2

  function Zeros(n: nat): (z: seq<byte>)
  {
    seq(n, i => 0)
  }

  type Cluster = c: seq<byte> | |c| == 2048 witness Zeros(2048)
  type Volume = v: seq<Cluster> | |v| == 2048 witness seq<Cluster>(2048, i => ZERO_CLUSTER)
  type Fat = f: seq<u32> | |f| == 512 witness seq(512, i => 0)

  type Name = s: seq<byte> | |s| == 8 witness Zeros(8)
  type Ext = s: seq<byte> | |s| == 3 witness Zeros(3)

  const NO_NAME: Name := Zeros(8)
  const NO_EXT: Ext := Zeros(3)
  const ZERO_CLUSTER: Cluster := Zeros(2048)
}
