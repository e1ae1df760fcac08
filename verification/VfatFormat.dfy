/** A volume as vfatMakeFS of drivers/vfat/main.c leaves it, and which of its FAT entries have data behind them. */
module VfatFormat {
  import opened Bits
  import opened Bytes
  import opened VfatLayout
  import opened Vfat
  import FatSize

  /** What vfatMount makes of the parameters and of s sectors for each FAT copy. */
  function Mounted(v: FatSize.Volume, s: nat): Geometry {
    var fatBytes := s * v.bytesPerSector;
    var fatOffset := v.bytesPerSector * v.reserved;
    Geometry(fatOffset, fatBytes, v.fats * fatBytes + fatOffset, v.sectorsPerCluster * v.bytesPerSector)
  }

  /** Entries 0 to 2 are written to both FAT copies; the other entries are left as they are on the device. */
  function Formatted(g: Geometry, device: seq<Byte>): (disk: seq<Byte>)
    requires g.Ok() && g.fatOffset + 2 * g.fatSize <= |device| && g.Max() > 2
    ensures |disk| == |device|
  {
    WithNext(g, WithNext(g, WithNext(g, device, 0, 0x0fff_fff8), 1, EOC), 2, EOC)
  }

  /** The root directory is the only file. */
  function Root(): map<nat, seq<nat>> { map[2 := [2]] }

  lemma FormattedFat(g: Geometry, device: seq<Byte>)
    requires g.Ok() && g.dataOffset <= |device| && g.Max() > 2
    ensures Fat1(g, Formatted(g, device)) == Fat1(g, device)[0 := 0x0fff_fff8][1 := EOC][2 := EOC]
    ensures Fat2(g, Formatted(g, device)) == Fat2(g, device)[0 := 0x0fff_fff8][1 := EOC][2 := EOC]
  {
    hide WithNext, Fat1, Fat2;
    WithNextEffect(g, device, 0, 0x0fff_fff8);
    var one := WithNext(g, device, 0, 0x0fff_fff8);
    WithNextEffect(g, one, 1, EOC);
    WithNextEffect(g, WithNext(g, one, 1, EOC), 2, EOC);
  }

  /** No FAT entry is in use. */
  ghost predicate Blank(g: Geometry, device: seq<Byte>)
    requires g.fatOffset + 2 * g.fatSize <= |device|
  {
    && (forall c :: 0 <= c < g.Max() ==> Fat1(g, device)[c] == 0)
    && (forall c :: 0 <= c < g.Max() ==> Fat2(g, device)[c] == 0)
  }

  /** Formatting a device with blank FATs makes a sound volume, which hands out entry 3 first. */
  lemma FormattedOk(g: Geometry, device: seq<Byte>)
    requires g.Ok() && g.dataOffset <= |device| && g.Max() > 2 && HasData(g, 2, |device|) && Blank(g, device)
    ensures VolumeOk(g, Formatted(g, device), Root())
    ensures var fat := Fat1(g, Formatted(g, device));
      fat[0] == 0x0fff_fff8 && fat[1] == fat[2] == 0x0fff_ffff && forall c :: 3 <= c < g.Max() ==> fat[c] == 0
    ensures g.Max() > 3 ==> FirstFree(Fat1(g, Formatted(g, device)), 3)
  {
    FormattedFat(g, device);
    hide Formatted, Fat1, Fat2, HasData;
    var disk := Formatted(g, device);
    var fat := Fat1(g, disk);
    assert IsChain(fat, Root()[2]);
    assert ChainOnDisk(g, disk, Root()[2]);
    assert fat == Fat2(g, disk);
  }

  // ----- Which entries have data -----

  /** A cluster has data exactly if it is one of the counted ones; the first has number 2. */
  lemma DataOfCounted(v: FatSize.Volume, s: nat, c: nat)
    requires v.sectorsPerCluster > 0 && v.bytesPerSector > 0 && v.reserved + v.fats * s <= v.totalSectors
    ensures HasData(Mounted(v, s), c, v.totalSectors * v.bytesPerSector) <==> 2 <= c < v.Clusters(s) + 2
  {
    if c >= 2 {
      var x := v.totalSectors - v.reserved - v.fats * s;
      Bytewise(v, s, c);
      FatSize.DivBelow(x, v.sectorsPerCluster, c - 1);
    }
  }

  lemma Bytewise(v: FatSize.Volume, s: nat, c: nat)
    requires v.bytesPerSector > 0 && c >= 2
    ensures var g := Mounted(v, s);
      ClusterStart(g, c) + g.clusterSize <= v.totalSectors * v.bytesPerSector
      <==> v.fats * s + v.reserved + (c - 1) * v.sectorsPerCluster <= v.totalSectors
  {
    var b, p := v.bytesPerSector, v.sectorsPerCluster;
    var sectors := v.fats * s + v.reserved + (c - 1) * p;
    assert v.fats * (s * b) == v.fats * s * b;
    assert (c - 2) * (p * b) + p * b == (c - 1) * p * b by {
      assert (c - 2) * (p * b) == (c - 2) * p * b;
    }
    assert ClusterStart(Mounted(v, s), c) + p * b == sectors * b;
    if sectors <= v.totalSectors {
      FatSize.MulGrows(b, sectors, v.totalSectors);
    } else {
      FatSize.MulGrows(b, v.totalSectors + 1, sectors);
    }
  }

  /** The parameters of a volume on which the least size of FAT leaves at least one cluster. */
  ghost predicate Fits(v: FatSize.Volume) {
    && v.sectorsPerCluster > 0 && v.bytesPerSector > 0 && v.bytesPerSector % 4 == 0 && v.Step() > 0
    && v.Rest() >= v.fats * v.Least() && Mounted(v, v.Least()).Ok()
  }

  lemma SomeCluster(v: FatSize.Volume)
    requires Fits(v)
    ensures v.reserved + v.fats * v.Least() <= v.totalSectors && v.Clusters(v.Least()) >= 1
  {
    FatSize.DivBelow(v.totalSectors - v.reserved - v.fats * v.Least(), v.sectorsPerCluster, 1);
  }

  /** On a freshly formatted volume every free entry has data exactly if the remainder and three clusters reach one step. */
  lemma FormattedBacked(v: FatSize.Volume, device: seq<Byte>)
    requires Fits(v) && |device| == v.totalSectors * v.bytesPerSector
    requires var g := Mounted(v, v.Least()); g.dataOffset <= |device| && g.Max() > 2 && Blank(g, device)
    ensures var g := Mounted(v, v.Least());
      && VolumeOk(g, Formatted(g, device), Root())
      && (FreeBacked(g, Fat1(g, Formatted(g, device)), |device|)
          <==> v.Rest() % v.Step() + 3 * v.sectorsPerCluster >= v.Step())
  {
    var s := v.Least();
    var g := Mounted(v, s);
    assert g.Max() == v.Entries(s);
    SomeCluster(v);
    DataOfCounted(v, s, 2);
    FatSize.LeastSpare(v, 3);
    hide HasData, Mounted, Formatted, Fat1, VolumeOk, Blank, FirstFree, Root;
    FormattedOk(g, device);
    var fat := Fat1(g, Formatted(g, device));
    forall c | 3 <= c < g.Max() ensures HasData(g, c, |device|) <==> c < v.Clusters(s) + 2 { DataOfCounted(v, s, c); }
    if FreeBacked(g, fat, |device|) && g.Max() > 3 { assert HasData(g, g.Max() - 1, |device|); }
  }

  // ----- Volumes with the parameters of vfatMakeFS -----

  /** 512-byte sectors, 32 reserved ones, 2 FAT copies, 4 sectors a cluster. */
  function Default(totalSectors: nat): FatSize.Volume {
    FatSize.Volume(totalSectors, 32, 2, 4, 512)
  }

  /** 64 MiB get 255 sectors of FAT, whose last six entries have no data. */
  lemma SixtyFourMiB()
    ensures var v := Default(0x2_0000);
      && Fits(v) && v.Least() == 255 && v.Entries(255) == 32640 && v.Clusters(255) == 32632
      && v.Rest() % v.Step() + 3 * v.sectorsPerCluster < v.Step()
  {
    var v := Default(0x2_0000);
    assert v.Rest() == 254 * 514 + 480;
    DivModUnique(v.Rest(), v.Step(), 254, 480);
  }

  function Zeros(n: nat): (device: seq<Byte>)
    ensures |device| == n && forall i :: 0 <= i < n ==> device[i] == 0
  {
    seq(n, _ => 0)
  }

  lemma ZerosBlank(g: Geometry, n: nat)
    requires g.fatOffset + 2 * g.fatSize <= n
    ensures Blank(g, Zeros(n))
  {
    hide Zeros;
  }

  /** A device of 40 sectors has room for one cluster. */
  const SMALL: Geometry := Geometry(0x4000, 0x200, 0x4400, 0x800)

  const SMALL_SIZE: nat := 0x5000

  lemma SmallIs()
    ensures var v := Default(40);
      Mounted(v, v.Least()) == SMALL && v.totalSectors * v.bytesPerSector == SMALL_SIZE
  {}

  lemma SmallData()
    ensures SMALL.Ok() && SMALL.Max() == 128 && HasData(SMALL, 2, SMALL_SIZE) && !HasData(SMALL, 3, SMALL_SIZE)
  {}

  /** There only the root directory has data, and the entry handed out has none. */
  lemma HandedOutWithoutData()
    ensures Mounted(Default(40), Default(40).Least()) == SMALL
    ensures SMALL.Ok() && VolumeOk(SMALL, Formatted(SMALL, Zeros(SMALL_SIZE)), Root())
    ensures var fat := Fat1(SMALL, Formatted(SMALL, Zeros(SMALL_SIZE)));
      FirstFree(fat, 3) && !SomeUsable(SMALL, fat, SMALL_SIZE)
  {
    SmallIs();
    SmallData();
    hide Formatted, Fat1, Fat2, Zeros, HasData, SomeUsable, FirstFree, Root, VolumeOk, Blank;
    ZerosBlank(SMALL, SMALL_SIZE);
    FormattedOk(SMALL, Zeros(SMALL_SIZE));
    HandedOut(SMALL, Fat1(SMALL, Formatted(SMALL, Zeros(SMALL_SIZE))), SMALL_SIZE, 3);
  }
}
