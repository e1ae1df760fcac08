/** How large a FAT is made when a volume is formatted: calc_fat_size of drivers/vfat/main.c. */
module FatSize {
  import opened Bits

  datatype Volume = Volume(totalSectors: nat, reserved: nat, fats: nat, sectorsPerCluster: nat, bytesPerSector: nat) {
    /** The parameters fit their C types, no cluster count times four overflows, and some FAT size is enough. */
    ghost predicate Ok() {
      && totalSectors < TWO_32 && 0 < sectorsPerCluster && 0 < bytesPerSector < 0x1_0000
      && totalSectors / sectorsPerCluster < 0x3fff_0000
      && exists s: nat :: s > 0 && Enough(s)
    }

    /** Data clusters left by FAT copies of s sectors. */
    function Clusters(s: nat): nat
      requires sectorsPerCluster > 0 && reserved + fats * s <= totalSectors
    {
      (totalSectors - reserved - fats * s) / sectorsPerCluster
    }

    /** s sectors have room for as many entries as there are data clusters. */
    predicate Enough(s: nat)
      requires sectorsPerCluster > 0
    {
      reserved + fats * s <= totalSectors && Clusters(s) * 4 <= s * bytesPerSector
    }

    /** The entry of a cluster lies inside s sectors. */
    predicate HasEntry(c: nat, s: nat) {
      c * 4 + 4 <= s * bytesPerSector
    }

    /** The sectors that one more sector of every FAT copy makes room for: its clusters and the copies themselves. */
    function Step(): nat {
      bytesPerSector / 4 * sectorsPerCluster + fats
    }

    /** The sectors past the reserved ones and one cluster. */
    function Rest(): int {
      totalSectors - reserved - sectorsPerCluster
    }

    /** The smallest size that is enough. */
    function Least(): nat
      requires Step() > 0
    {
      if Rest() < 0 then 1 else Rest() / Step() + 1
    }

    /** Entries that a FAT of s sectors has. */
    function Entries(s: nat): nat {
      s * bytesPerSector / 4
    }

    /** Every data cluster has its entry; the first one has number 2. */
    predicate CoversAll(s: nat)
      requires sectorsPerCluster > 0 && reserved + fats * s <= totalSectors
    {
      forall c :: 2 <= c < Clusters(s) + 2 ==> HasEntry(c, s)
    }
  }

  lemma RoundedUp(x: nat, d: nat, s: nat)
    requires d > 0
    ensures (x + d - 1) / d > s <==> x > s * d
  {
    var q, r := (x + d - 1) / d, (x + d - 1) % d;
    assert x + d - 1 == d * q + r;
    if q > s { MulGrows(d, s + 1, q); } else { MulGrows(d, q, s); }
  }

  lemma MulGrows(a: nat, b: nat, c: nat)
    requires b <= c
    ensures a * b <= a * c
  {}

  lemma FewClusters(v: Volume, s: nat)
    requires v.Ok() && v.reserved + v.fats * s <= v.totalSectors
    ensures v.Clusters(s) < 0x3fff_0000
  {
    DivGrows(v.totalSectors - v.reserved - v.fats * s, v.totalSectors, v.sectorsPerCluster);
  }

  lemma DivGrows(x: nat, y: nat, d: nat)
    requires x <= y && d > 0
    ensures x / d <= y / d
  {
    var p, q := x / d, y / d;
    assert x == d * p + x % d && y == d * q + y % d;
    if p > q { MulGrows(d, q + 1, p); }
  }

  lemma NoWrap(count: nat, bps: nat)
    requires count < 0x3fff_0000 && 0 < bps < 0x1_0000
    ensures (count * 4 + bps - 1) % TWO_32 == count * 4 + bps - 1
  {}

  // ----- Which sizes are enough, and what they leave -----

  lemma DivBelow(x: nat, d: nat, n: int)
    requires d > 0
    ensures x / d < n <==> x < n * d
  {
    assert x == d * (x / d) + x % d;
    if x / d < n { MulGrows(d, x / d + 1, n); }
    if n <= x / d && 0 <= n { MulGrows(d, n, x / d); }
    if n < 0 { NegativeProduct(n, d); }
  }

  lemma NegativeProduct(n: int, d: nat)
    requires n < 0 && d > 0
    ensures n * d < 0
  {}

  /** s sectors have k entries more than there are clusters exactly if s steps reach past the rest and k clusters. */
  lemma Spare(v: Volume, s: nat, k: nat)
    requires v.sectorsPerCluster > 0 && v.bytesPerSector % 4 == 0 && v.reserved + v.fats * s <= v.totalSectors
    ensures v.Clusters(s) + k <= v.Entries(s) <==> v.Rest() + k * v.sectorsPerCluster < s * v.Step()
  {
    var e, p, f := v.bytesPerSector / 4, v.sectorsPerCluster, v.fats;
    var x := v.totalSectors - v.reserved - f * s;
    EntriesIs(v, s);
    DivBelow(x, p, s * e - k + 1);
    Product(s, e, p, f, k);
  }

  lemma Product(s: nat, e: nat, p: nat, f: nat, k: nat)
    ensures (s * e - k + 1) * p == s * (e * p + f) - f * s - k * p + p
  {
    assert s * (e * p + f) == s * e * p + s * f;
  }

  lemma EntriesIs(v: Volume, s: nat)
    requires v.bytesPerSector % 4 == 0
    ensures v.Entries(s) == s * (v.bytesPerSector / 4) && 4 * v.Entries(s) == s * v.bytesPerSector
  {
    var e := v.bytesPerSector / 4;
    assert v.bytesPerSector == 4 * e;
    assert s * v.bytesPerSector == 4 * (s * e);
  }

  lemma EnoughIs(v: Volume, s: nat)
    requires v.sectorsPerCluster > 0 && v.bytesPerSector % 4 == 0
    ensures v.Enough(s) <==> v.reserved + v.fats * s <= v.totalSectors && v.Rest() < s * v.Step()
  {
    if v.reserved + v.fats * s <= v.totalSectors {
      Spare(v, s, 0);
      EntriesIs(v, s);
    }
  }

  lemma LeastIs(v: Volume, s: nat)
    requires v.Step() > 0 && s > 0
    ensures v.Rest() < s * v.Step() <==> v.Least() <= s
  {
    if v.Rest() >= 0 { DivBelow(v.Rest(), v.Step(), s); } else { MulGrows(v.Step(), 1, s); }
  }

  /** Every size that is enough is at least this one, which is enough if it leaves any sectors. */
  lemma SmallestIs(v: Volume, s: nat)
    requires v.sectorsPerCluster > 0 && v.bytesPerSector % 4 == 0 && v.bytesPerSector > 0 && s > 0 && v.Enough(s)
    requires forall t: nat :: 0 < t < s ==> !v.Enough(t)
    ensures v.Step() > 0 && s == v.Least()
  {
    StepPositive(v);
    var t := v.Least();
    EnoughIs(v, s);
    LeastIs(v, s);
    assert 0 < t <= s;
    if t < s {
      EnoughIs(v, t);
      LeastIs(v, t);
      MulGrows(v.fats, t, s);
    }
  }

  /** Some size is enough exactly if the FAT copies of the least one fit. */
  lemma SomeEnough(v: Volume)
    requires v.sectorsPerCluster > 0 && v.bytesPerSector % 4 == 0 && v.Step() > 0
    ensures (exists s: nat :: s > 0 && v.Enough(s)) <==> v.reserved + v.fats * v.Least() <= v.totalSectors
  {
    var t := v.Least();
    if s: nat :| s > 0 && v.Enough(s) {
      EnoughIs(v, s);
      LeastIs(v, s);
      MulGrows(v.fats, t, s);
    }
    if v.reserved + v.fats * t <= v.totalSectors {
      LeastIs(v, t);
      EnoughIs(v, t);
      assert t > 0 && v.Enough(t);
    }
  }

  lemma StepPositive(v: Volume)
    requires v.sectorsPerCluster > 0 && v.bytesPerSector >= 4
    ensures v.Step() > 0
  {
    MulGrows(v.sectorsPerCluster, 1, v.bytesPerSector / 4);
  }

  /** How much the smallest enough size has to spare, from the parameters of the volume. */
  lemma LeastSpare(v: Volume, k: nat)
    requires v.sectorsPerCluster > 0 && v.bytesPerSector % 4 == 0 && v.bytesPerSector > 0 && v.Rest() >= 0
    requires v.Step() > 0 && v.reserved + v.fats * v.Least() <= v.totalSectors
    ensures v.Clusters(v.Least()) + k <= v.Entries(v.Least())
      <==> v.Rest() % v.Step() + k * v.sectorsPerCluster < v.Step()
  {
    var q := v.Rest() / v.Step();
    Spare(v, v.Least(), k);
    assert v.Rest() == v.Step() * q + v.Rest() % v.Step();
    assert (q + 1) * v.Step() == v.Step() * q + v.Step();
  }

  /** calc_fat_size finds the smallest size that is enough. Every data cluster has its entry exactly if there is none,
      or the remainder and two clusters stay below one step. */
  method CalcFatSize(v: Volume) returns (sectorsPerFat: nat)
    requires v.Ok()
    ensures sectorsPerFat > 0 && v.Enough(sectorsPerFat)
    ensures forall s: nat :: 0 < s < sectorsPerFat ==> !v.Enough(s)
    ensures v.bytesPerSector % 4 == 0 ==> v.Step() > 0 && sectorsPerFat == v.Least()
    ensures v.bytesPerSector % 4 == 0 ==> (v.CoversAll(sectorsPerFat) <==> Covered(v))
  {
    ghost var bound: nat :| bound > 0 && v.Enough(bound);
    sectorsPerFat := 0;
    var more := true;
    while more
      invariant 0 <= sectorsPerFat <= bound
      invariant forall s: nat :: 0 < s < sectorsPerFat ==> !v.Enough(s)
      invariant sectorsPerFat > 0 ==> (more <==> !v.Enough(sectorsPerFat))
      invariant sectorsPerFat == 0 ==> more
      decreases bound - sectorsPerFat, more
    {
      sectorsPerFat := sectorsPerFat + 1;
      assert sectorsPerFat <= bound;
      MulGrows(v.fats, sectorsPerFat, bound);
      FewClusters(v, sectorsPerFat);
      var dataSectors := v.totalSectors - v.reserved - v.fats * sectorsPerFat;
      var clusterCount := dataSectors / v.sectorsPerCluster;
      RoundedUp(clusterCount * 4, v.bytesPerSector, sectorsPerFat);
      NoWrap(clusterCount, v.bytesPerSector);
      more := (clusterCount * 4 + v.bytesPerSector - 1) % TWO_32 / v.bytesPerSector > sectorsPerFat;
    }
    if v.bytesPerSector % 4 == 0 {
      SmallestIs(v, sectorsPerFat);
      CoveredIs(v);
    }
  }

  /** Said of the parameters: no sectors are left for a cluster, or the FAT has two entries to spare. */
  predicate Covered(v: Volume)
    requires v.Step() > 0
  {
    || v.Rest() < v.fats * v.Least()
    || v.Rest() % v.Step() + 2 * v.sectorsPerCluster < v.Step()
  }

  lemma CoveredIs(v: Volume)
    requires v.sectorsPerCluster > 0 && v.bytesPerSector % 4 == 0 && v.bytesPerSector > 0
    requires v.Step() > 0 && v.reserved + v.fats * v.Least() <= v.totalSectors
    ensures v.CoversAll(v.Least()) <==> Covered(v)
  {
    var s := v.Least();
    CoversAllIs(v, s);
    EntriesIs(v, s);
    DivBelow(v.totalSectors - v.reserved - v.fats * s, v.sectorsPerCluster, 1);
    if v.Rest() >= 0 { LeastSpare(v, 2); }
  }

  /** Entries 0 and 1 are not counted: every data cluster has an entry exactly if two entries were to spare. */
  lemma CoversAllIs(v: Volume, s: nat)
    requires v.sectorsPerCluster > 0 && v.reserved + v.fats * s <= v.totalSectors
    ensures v.CoversAll(s) <==> v.Clusters(s) == 0 || (v.Clusters(s) + 2) * 4 <= s * v.bytesPerSector
  {
    var last := v.Clusters(s) + 1;
    if v.CoversAll(s) && last >= 2 { assert v.HasEntry(last, s); }
  }

  /** A volume of 162 sectors gets one sector of FAT, which is too short for its last two clusters. */
  lemma LastClustersUncovered()
    ensures var v := Volume(162, 32, 2, 1, 512); v.Ok() && v.Enough(1) && !v.CoversAll(1)
  {
    var v := Volume(162, 32, 2, 1, 512);
    assert v.Clusters(1) == 128;
    assert v.Enough(1);
    CoversAllIs(v, 1);
  }
}
