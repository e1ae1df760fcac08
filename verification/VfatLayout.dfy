/** The bytes of a FAT volume: the two FAT copies, and clusters of file data. */
module VfatLayout {
  import opened Bits
  import opened Bytes

  const EOC: nat := 0x0fff_ffff

  /** What vfatMount keeps of the boot sector. */
  datatype Geometry = Geometry(fatOffset: nat, fatSize: nat, dataOffset: nat, clusterSize: nat) {
    /** The number of FAT entries: fat_size_bytes / 4. */
    function Max(): nat { fatSize / 4 }

    predicate Ok() {
      && clusterSize > 0 && fatSize % 4 == 0 && fatSize / 4 <= EOC
      && fatOffset + 2 * fatSize <= dataOffset && fatOffset + 2 * fatSize < TWO_32
    }
  }

  /** Where a cluster's data starts. */
  function ClusterStart(g: Geometry, c: nat): nat
    requires c >= 2
  {
    g.dataOffset + (c - 2) * g.clusterSize
  }

  predicate HasData(g: Geometry, c: nat, size: nat) {
    c >= 2 && ClusterStart(g, c) + g.clusterSize <= size
  }

  function FatAt(disk: seq<Byte>, at: nat, n: nat): (f: seq<nat>)
    requires at + 4 * n <= |disk|
    ensures |f| == n && forall i :: 0 <= i < n ==> f[i] == Word32(disk, at + 4 * i)
  {
    seq(n, i requires 0 <= i < n => Word32(disk, at + 4 * i))
  }

  /** The first FAT copy, and the second. */
  function Fat1(g: Geometry, disk: seq<Byte>): (f: seq<nat>)
    requires g.fatOffset + 2 * g.fatSize <= |disk|
    ensures |f| == g.Max()
  {
    FatAt(disk, g.fatOffset, g.Max())
  }

  function Fat2(g: Geometry, disk: seq<Byte>): (f: seq<nat>)
    requires g.fatOffset + 2 * g.fatSize <= |disk|
    ensures |f| == g.Max()
  {
    FatAt(disk, g.fatOffset + g.fatSize, g.Max())
  }

  lemma FatSet(disk: seq<Byte>, at: nat, n: nat, i: nat, w: nat)
    requires at + 4 * n <= |disk| && i < n && w < TWO_32
    ensures FatAt(Splice(disk, at + 4 * i, Le32(w)), at, n) == FatAt(disk, at, n)[i := w]
  {
    hide Word32, Splice, Le32;
    WordRoundTrip(disk, at + 4 * i, w);
    forall j | 0 <= j < n && j != i
      ensures Word32(Splice(disk, at + 4 * i, Le32(w)), at + 4 * j) == Word32(disk, at + 4 * j)
    {
      WordElsewhere(disk, at + 4 * i, Le32(w), at + 4 * j);
    }
  }

  lemma FatKept(disk: seq<Byte>, at: nat, n: nat, p: nat, bytes: seq<Byte>)
    requires at + 4 * n <= |disk| && p + |bytes| <= |disk| && (p + |bytes| <= at || at + 4 * n <= p)
    ensures FatAt(Splice(disk, p, bytes), at, n) == FatAt(disk, at, n)
  {
    hide Word32, Splice;
    forall j | 0 <= j < n ensures Word32(Splice(disk, p, bytes), at + 4 * j) == Word32(disk, at + 4 * j) {
      WordElsewhere(disk, p, bytes, at + 4 * j);
    }
  }

  /** The byte number, within a file, of a position in its q-th cluster. */
  function FilePos(g: Geometry, q: nat, at: nat): nat {
    q * g.clusterSize + at
  }

  /** offset / cluster_size and offset % cluster_size */
  function ClusterIndex(g: Geometry, offset: nat): nat
    requires g.clusterSize > 0
  {
    offset / g.clusterSize
  }

  function ClusterPos(g: Geometry, offset: nat): nat
    requires g.clusterSize > 0
  {
    offset % g.clusterSize
  }

  lemma Position(g: Geometry, o: nat)
    requires g.clusterSize > 0
    ensures o == FilePos(g, ClusterIndex(g, o), ClusterPos(g, o)) && ClusterPos(g, o) < g.clusterSize
  {}

  lemma NextPosition(g: Geometry, o: nat, n: nat)
    requires g.clusterSize > 0 && ClusterPos(g, o) + n <= g.clusterSize
    ensures ClusterIndex(g, o + n) == ClusterIndex(g, o) + if ClusterPos(g, o) + n == g.clusterSize then 1 else 0
    ensures ClusterPos(g, o + n) == if ClusterPos(g, o) + n == g.clusterSize then 0 else ClusterPos(g, o) + n
  {
    var size := g.clusterSize;
    var q, p := o / size, o % size;
    if p + n == size {
      DivModUnique(o + n, size, q + 1, 0);
    } else {
      DivModUnique(o + n, size, q, p + n);
    }
  }

  lemma InsideFile(g: Geometry, o: nat, n: nat)
    requires g.clusterSize > 0 && ClusterIndex(g, o) < n
    ensures o < FilePos(g, n, 0)
  {
    PrefixBound(o / g.clusterSize, n, g.clusterSize);
    Position(g, o);
  }

  // ----- Chains -----

  /** A cluster chain: distinct clusters, each entry naming the next one, the last marked as the end. */
  ghost predicate IsChain(fat: seq<nat>, chain: seq<nat>) {
    && |chain| > 0
    && (forall i :: 0 <= i < |chain| ==> 2 <= chain[i] < |fat|)
    && (forall i, j :: 0 <= i < j < |chain| ==> chain[i] != chain[j])
    && (forall i :: 0 <= i < |chain| - 1 ==> fat[chain[i]] == chain[i + 1])
    && fat[chain[|chain| - 1]] == EOC
  }

  /** The file table: each first cluster heads a chain, and no two chains share a cluster. */
  ghost predicate FilesOk(fat: seq<nat>, files: map<nat, seq<nat>>) {
    && (forall f :: f in files ==> IsChain(fat, files[f]) && files[f][0] == f)
    && (forall f, g, c :: f in files && g in files && c in files[f] && c in files[g] ==> f == g)
  }

  lemma {:induction false} ChainDecided(fat: seq<nat>, a: seq<nat>, b: seq<nat>, i: nat)
    requires IsChain(fat, a) && IsChain(fat, b) && a[0] == b[0] && |fat| <= EOC
    requires i < |a|
    ensures i < |b| && a[i] == b[i] && (i == |a| - 1 <==> i == |b| - 1)
    decreases i
  {
    if i > 0 {
      ChainDecided(fat, a, b, i - 1);
      assert fat[a[i - 1]] == a[i];
    }
    assert i < |a| - 1 ==> fat[a[i]] == a[i + 1];
    assert i < |b| - 1 ==> fat[b[i]] == b[i + 1];
  }

  /** The FAT alone decides the chain of a first cluster, so following it ends after finitely many steps. */
  lemma ChainUnique(fat: seq<nat>, a: seq<nat>, b: seq<nat>)
    requires IsChain(fat, a) && IsChain(fat, b) && a[0] == b[0] && |fat| <= EOC
    ensures a == b
  {
    ChainDecided(fat, a, b, |a| - 1);
    forall i | 0 <= i < |a| ensures a[i] == b[i] { ChainDecided(fat, a, b, i); }
  }

  /** No two clusters of any files share a successor, and free clusters belong to no file. */
  lemma NoSharedSuccessor(fat: seq<nat>, files: map<nat, seq<nat>>, f: nat, i: nat, g: nat, j: nat)
    requires FilesOk(fat, files) && |fat| <= EOC && f in files && g in files
    requires i < |files[f]| && j < |files[g]| && fat[files[f][i]] == fat[files[g][j]] != EOC
    ensures f == g && i == j && fat[files[f][i]] != 0
  {
    assert i < |files[f]| - 1 && j < |files[g]| - 1;
    var next := files[f][i + 1];
    assert next == files[g][j + 1];
    assert next in files[f] && next in files[g];
  }

  lemma ChainEntryUsed(fat: seq<nat>, chain: seq<nat>, i: nat)
    requires IsChain(fat, chain) && i < |chain|
    ensures fat[chain[i]] != 0
  {
    assert i < |chain| - 1 ==> fat[chain[i]] == chain[i + 1];
  }

  lemma FreeIsUnused(fat: seq<nat>, files: map<nat, seq<nat>>, c: nat)
    requires FilesOk(fat, files) && c < |fat| && fat[c] == 0
    ensures c !in files && forall f :: f in files ==> c !in files[f]
  {
    forall f | f in files ensures c !in files[f] {
      forall i | 0 <= i < |files[f]| ensures files[f][i] != c { ChainEntryUsed(fat, files[f], i); }
    }
    assert forall f :: f in files ==> files[f][0] == f;
  }

  lemma ChainAvoids(fat: seq<nat>, chain: seq<nat>, c: nat, w: nat)
    requires IsChain(fat, chain) && c < |fat| && c !in chain
    ensures IsChain(fat[c := w], chain)
  {
    assert forall i :: 0 <= i < |chain| ==> chain[i] in chain;
  }

  lemma ChainGrows(fat: seq<nat>, chain: seq<nat>, next: nat)
    requires IsChain(fat, chain) && 2 <= next < |fat| && next !in chain
    ensures IsChain(fat[chain[|chain| - 1] := next][next := EOC], chain + [next])
  {
    assert forall i :: 0 <= i < |chain| ==> chain[i] in chain;
  }

  /** Linking a free cluster after the last one of a file. */
  lemma Extend(fat: seq<nat>, files: map<nat, seq<nat>>, f: nat, next: nat)
    requires FilesOk(fat, files) && f in files && 2 <= next < |fat| && fat[next] == 0
    ensures var last := files[f][|files[f]| - 1];
      FilesOk(fat[last := next][next := EOC], files[f := files[f] + [next]])
  {
    var chain := files[f];
    var last := chain[|chain| - 1];
    var fat', files' := fat[last := next][next := EOC], files[f := chain + [next]];
    FreeIsUnused(fat, files, next);
    ChainGrows(fat, chain, next);
    hide IsChain;
    assert last in chain;
    forall h | h in files' ensures IsChain(fat', files'[h]) && files'[h][0] == h {
      if h != f {
        ChainAvoids(fat, files[h], last, next);
        ChainAvoids(fat[last := next], files[h], next, EOC);
      }
    }
    assert forall h, c :: h in files' && c in files'[h] ==> c in files[h] || (h == f && c == next);
  }

  /** Starting a file with a free cluster. */
  lemma Begin(fat: seq<nat>, files: map<nat, seq<nat>>, c: nat)
    requires FilesOk(fat, files) && 2 <= c < |fat| && fat[c] == 0
    ensures c !in files && FilesOk(fat[c := EOC], files[c := [c]])
  {
    FreeIsUnused(fat, files, c);
    forall h | h in files ensures IsChain(fat[c := EOC], files[h]) {
      ChainAvoids(fat, files[h], c, EOC);
    }
  }

  // ----- Free clusters -----

  /** A free cluster with data behind it. */
  predicate Usable(g: Geometry, fat: seq<nat>, size: nat, c: nat) {
    2 <= c < |fat| && fat[c] == 0 && HasData(g, c, size)
  }

  /** The clusters that are still to be had. */
  ghost function UsableSet(g: Geometry, fat: seq<nat>, size: nat): set<nat> {
    set c | 0 <= c < |fat| && Usable(g, fat, size, c)
  }

  ghost predicate SomeUsable(g: Geometry, fat: seq<nat>, size: nat) {
    exists c :: Usable(g, fat, size, c)
  }

  lemma IsUsable(g: Geometry, fat: seq<nat>, size: nat, c: nat)
    requires Usable(g, fat, size, c)
    ensures SomeUsable(g, fat, size)
  {}

  /** The lowest free entry, which is the one that is handed out. */
  ghost predicate FirstFree(fat: seq<nat>, c: nat) {
    2 <= c < |fat| && fat[c] == 0 && forall b :: 2 <= b < c ==> fat[b] != 0
  }

  /** The cluster handed out has data behind it exactly if some free cluster has. */
  lemma HandedOut(g: Geometry, fat: seq<nat>, size: nat, c: nat)
    requires FirstFree(fat, c)
    ensures HasData(g, c, size) <==> SomeUsable(g, fat, size)
  {
    if HasData(g, c, size) { assert Usable(g, fat, size, c); }
    if SomeUsable(g, fat, size) {
      var d :| Usable(g, fat, size, d);
      LowerHasData(g, c, d, size);
    }
  }

  lemma LowerHasData(g: Geometry, c: nat, d: nat, size: nat)
    requires 2 <= c <= d && HasData(g, d, size)
    ensures HasData(g, c, size)
  {
    if c < d { ClustersApart(g, c, d); }
  }

  /** Linking a free cluster uses it up and no other. */
  lemma LinkUsesOne(g: Geometry, fat: seq<nat>, size: nat, last: nat, next: nat)
    requires last < |fat| && fat[last] != 0 && Usable(g, fat, size, next)
    ensures |UsableSet(g, fat[last := next][next := EOC], size)| == |UsableSet(g, fat, size)| - 1
  {
    assert UsableSet(g, fat[last := next][next := EOC], size) == UsableSet(g, fat, size) - {next};
  }

  lemma UsableCount(g: Geometry, fat: seq<nat>, size: nat)
    ensures |UsableSet(g, fat, size)| > 0 <==> SomeUsable(g, fat, size)
  {
    if SomeUsable(g, fat, size) {
      var c :| Usable(g, fat, size, c);
      assert c in UsableSet(g, fat, size);
    }
    if |UsableSet(g, fat, size)| > 0 {
      var c :| c in UsableSet(g, fat, size);
      assert Usable(g, fat, size, c);
    }
  }

  lemma NoneUsable(g: Geometry, fat: seq<nat>, size: nat)
    requires forall c :: 2 <= c < |fat| ==> fat[c] != 0
    ensures UsableSet(g, fat, size) == {}
  {}

  // ----- File contents -----

  ghost predicate ChainOnDisk(g: Geometry, disk: seq<Byte>, chain: seq<nat>) {
    forall i :: 0 <= i < |chain| ==> HasData(g, chain[i], |disk|)
  }

  function ClusterBytes(g: Geometry, disk: seq<Byte>, c: nat): (b: seq<Byte>)
    requires HasData(g, c, |disk|)
    ensures |b| == g.clusterSize
  {
    disk[ClusterStart(g, c)..ClusterStart(g, c) + g.clusterSize]
  }

  /** A file is the bytes of its clusters, in chain order. */
  ghost function Content(g: Geometry, disk: seq<Byte>, chain: seq<nat>): (b: seq<Byte>)
    requires ChainOnDisk(g, disk, chain)
    ensures |b| == |chain| * g.clusterSize
  {
    if chain == [] then []
    else
      assert chain[|chain| - 1] == chain[..|chain| - 1 + 1][|chain| - 1];
      Content(g, disk, chain[..|chain| - 1]) + ClusterBytes(g, disk, chain[|chain| - 1])
  }

  lemma ContentLast(g: Geometry, disk: seq<Byte>, chain: seq<nat>)
    requires ChainOnDisk(g, disk, chain) && chain != []
    ensures ChainOnDisk(g, disk, chain[..|chain| - 1]) && HasData(g, chain[|chain| - 1], |disk|)
    ensures Content(g, disk, chain) == Content(g, disk, chain[..|chain| - 1]) + ClusterBytes(g, disk, chain[|chain| - 1])
    ensures |Content(g, disk, chain[..|chain| - 1])| == (|chain| - 1) * g.clusterSize
  {}

  lemma ContentOfLonger(g: Geometry, disk: seq<Byte>, chain: seq<nat>, c: nat)
    requires ChainOnDisk(g, disk, chain) && HasData(g, c, |disk|)
    ensures ChainOnDisk(g, disk, chain + [c])
    ensures Content(g, disk, chain + [c]) == Content(g, disk, chain) + ClusterBytes(g, disk, c)
  {
    assert (chain + [c])[..|chain|] == chain;
  }

  lemma ClustersApart(g: Geometry, a: nat, b: nat)
    requires 2 <= a < b
    ensures ClusterStart(g, a) + g.clusterSize <= ClusterStart(g, b)
  {
    assert (b - 2) * g.clusterSize == (a - 2) * g.clusterSize + (b - a) * g.clusterSize;
    MulAtLeast(g.clusterSize, b - a);
  }

  /** Bytes written into one cluster do not reach any other. */
  lemma OtherCluster(g: Geometry, disk: seq<Byte>, c: nat, at: nat, bytes: seq<Byte>, d: nat)
    requires HasData(g, c, |disk|) && HasData(g, d, |disk|) && at + |bytes| <= g.clusterSize && c != d
    ensures ClusterBytes(g, Splice(disk, ClusterStart(g, c) + at, bytes), d) == ClusterBytes(g, disk, d)
  {
    hide Splice;
    if c < d { ClustersApart(g, c, d); } else { ClustersApart(g, d, c); }
  }

  lemma {:induction false} OtherChain(g: Geometry, disk: seq<Byte>, c: nat, at: nat, bytes: seq<Byte>, chain: seq<nat>)
    requires ChainOnDisk(g, disk, chain) && HasData(g, c, |disk|) && at + |bytes| <= g.clusterSize && c !in chain
    ensures ChainOnDisk(g, Splice(disk, ClusterStart(g, c) + at, bytes), chain)
    ensures Content(g, Splice(disk, ClusterStart(g, c) + at, bytes), chain) == Content(g, disk, chain)
    decreases |chain|
  {
    hide Splice, ClusterBytes;
    if chain != [] {
      OtherChain(g, disk, c, at, bytes, chain[..|chain| - 1]);
      OtherCluster(g, disk, c, at, bytes, chain[|chain| - 1]);
    }
  }

  /** Bytes written into cluster q of a file are the file's bytes from q * cluster_size on. */
  lemma {:induction false} WriteInChain(g: Geometry, disk: seq<Byte>, chain: seq<nat>, q: nat, at: nat, bytes: seq<Byte>)
    requires ChainOnDisk(g, disk, chain) && q < |chain| && at + |bytes| <= g.clusterSize
    requires forall i, j :: 0 <= i < j < |chain| ==> chain[i] != chain[j]
    ensures ChainOnDisk(g, Splice(disk, ClusterStart(g, chain[q]) + at, bytes), chain)
    ensures q * g.clusterSize + at + |bytes| <= |chain| * g.clusterSize
    ensures Content(g, Splice(disk, ClusterStart(g, chain[q]) + at, bytes), chain)
         == Splice(Content(g, disk, chain), q * g.clusterSize + at, bytes)
    decreases |chain|
  {
    hide ClusterBytes, Splice, Content, ClusterStart;
    var n := |chain| - 1;
    StaysInCluster(g, disk, chain[q], at, bytes);
    var disk' := Splice(disk, ClusterStart(g, chain[q]) + at, bytes);
    var head, last := chain[..n], chain[n];
    PrefixBound(q, n + 1, g.clusterSize);
    ContentLast(g, disk, chain);
    ContentLast(g, disk', chain);
    if q < n {
      PrefixBound(q, n, g.clusterSize);
      WriteInChain(g, disk, head, q, at, bytes);
      OtherCluster(g, disk, chain[q], at, bytes, last);
      SpliceFront(Content(g, disk, head), ClusterBytes(g, disk, last), q * g.clusterSize + at, bytes);
    } else {
      WriteInLast(g, disk, chain, at, bytes);
    }
  }

  lemma WriteInLast(g: Geometry, disk: seq<Byte>, chain: seq<nat>, at: nat, bytes: seq<Byte>)
    requires ChainOnDisk(g, disk, chain) && chain != [] && at + |bytes| <= g.clusterSize
    requires forall i, j :: 0 <= i < j < |chain| ==> chain[i] != chain[j]
    ensures ClusterStart(g, chain[|chain| - 1]) + at + |bytes| <= |disk|
    ensures ChainOnDisk(g, Splice(disk, ClusterStart(g, chain[|chain| - 1]) + at, bytes), chain)
    ensures (|chain| - 1) * g.clusterSize + at + |bytes| <= |Content(g, disk, chain)|
    ensures Content(g, Splice(disk, ClusterStart(g, chain[|chain| - 1]) + at, bytes), chain)
         == Splice(Content(g, disk, chain), (|chain| - 1) * g.clusterSize + at, bytes)
  {
    hide ClusterBytes, Splice, Content, ClusterStart;
    var n := |chain| - 1;
    var head, last := chain[..n], chain[n];
    StaysInCluster(g, disk, last, at, bytes);
    ContentLast(g, disk, chain);
    ContentLast(g, Splice(disk, ClusterStart(g, last) + at, bytes), chain);
    OtherChain(g, disk, last, at, bytes, head);
    SameCluster(g, disk, last, at, bytes);
    SpliceBack(Content(g, disk, head), ClusterBytes(g, disk, last), at, bytes);
  }

  lemma StaysInCluster(g: Geometry, disk: seq<Byte>, c: nat, at: nat, bytes: seq<Byte>)
    requires HasData(g, c, |disk|) && at + |bytes| <= g.clusterSize
    ensures ClusterStart(g, c) + at + |bytes| <= |disk|
  {}

  lemma PrefixBound(q: nat, n: nat, size: nat)
    requires q < n
    ensures q * size + size <= n * size
  {
    assert n * size == q * size + (n - q) * size;
    MulAtLeast(size, n - q);
  }

  lemma SameCluster(g: Geometry, disk: seq<Byte>, c: nat, at: nat, bytes: seq<Byte>)
    requires HasData(g, c, |disk|) && at + |bytes| <= g.clusterSize
    ensures ClusterBytes(g, Splice(disk, ClusterStart(g, c) + at, bytes), c) == Splice(ClusterBytes(g, disk, c), at, bytes)
  {
    hide Splice;
  }

  lemma SpliceFront(a: seq<Byte>, b: seq<Byte>, at: nat, bytes: seq<Byte>)
    requires at + |bytes| <= |a|
    ensures Splice(a + b, at, bytes) == Splice(a, at, bytes) + b
  {
    hide Splice;
  }

  lemma SpliceBack(a: seq<Byte>, b: seq<Byte>, at: nat, bytes: seq<Byte>)
    requires at + |bytes| <= |b|
    ensures Splice(a + b, |a| + at, bytes) == a + Splice(b, at, bytes)
  {
    hide Splice;
  }

  lemma ClusterKept(g: Geometry, disk: seq<Byte>, disk': seq<Byte>, c: nat)
    requires HasData(g, c, |disk|) && |disk'| == |disk|
    requires forall j :: g.dataOffset <= j < |disk| ==> disk'[j] == disk[j]
    ensures ClusterBytes(g, disk', c) == ClusterBytes(g, disk, c)
  {}

  /** Bytes written outside the data area change no file. */
  lemma {:induction false} ContentKept(g: Geometry, disk: seq<Byte>, disk': seq<Byte>, chain: seq<nat>)
    requires ChainOnDisk(g, disk, chain) && |disk'| == |disk|
    requires forall j :: g.dataOffset <= j < |disk| ==> disk'[j] == disk[j]
    ensures ChainOnDisk(g, disk', chain) && Content(g, disk', chain) == Content(g, disk, chain)
    decreases |chain|
  {
    assert ChainOnDisk(g, disk', chain);
    if chain != [] {
      ContentLast(g, disk, chain);
      ContentLast(g, disk', chain);
      ClusterKept(g, disk, disk', chain[|chain| - 1]);
      hide Content, ClusterBytes;
      ContentKept(g, disk, disk', chain[..|chain| - 1]);
    }
  }

  /** A slice of a file inside one cluster, as the read path fetches it. */
  lemma {:induction false} ReadInChain(g: Geometry, disk: seq<Byte>, chain: seq<nat>, q: nat, at: nat, n: nat)
    requires ChainOnDisk(g, disk, chain) && q < |chain| && at + n <= g.clusterSize
    ensures q * g.clusterSize + at + n <= |chain| * g.clusterSize
    ensures ClusterStart(g, chain[q]) + at + n <= |disk|
    ensures disk[ClusterStart(g, chain[q]) + at..ClusterStart(g, chain[q]) + at + n]
         == Content(g, disk, chain)[q * g.clusterSize + at..q * g.clusterSize + at + n]
    decreases |chain|
  {
    hide Content, ClusterStart, ClusterBytes;
    var m := |chain| - 1;
    PrefixBound(q, m + 1, g.clusterSize);
    ContentLast(g, disk, chain);
    if q < m {
      PrefixBound(q, m, g.clusterSize);
      ReadInChain(g, disk, chain[..m], q, at, n);
      SliceFront(Content(g, disk, chain[..m]), ClusterBytes(g, disk, chain[m]), q * g.clusterSize + at, n);
    } else {
      ReadCluster(g, disk, chain[m], at, n);
      SliceBack(Content(g, disk, chain[..m]), ClusterBytes(g, disk, chain[m]), at, n);
    }
  }

  lemma ReadCluster(g: Geometry, disk: seq<Byte>, c: nat, at: nat, n: nat)
    requires HasData(g, c, |disk|) && at + n <= g.clusterSize
    ensures ClusterStart(g, c) + at + n <= |disk|
    ensures disk[ClusterStart(g, c) + at..ClusterStart(g, c) + at + n] == ClusterBytes(g, disk, c)[at..at + n]
  {
    SliceOfSlice(disk, ClusterStart(g, c), g.clusterSize, at, n);
  }

  lemma SliceOfSlice(s: seq<Byte>, start: nat, size: nat, at: nat, n: nat)
    requires start + size <= |s| && at + n <= size
    ensures s[start..start + size][at..at + n] == s[start + at..start + at + n]
  {
    var part, whole := s[start..start + size][at..at + n], s[start + at..start + at + n];
    forall j | 0 <= j < n ensures part[j] == whole[j] {
      assert part[j] == s[start..start + size][at + j];
    }
    assert part == whole;
  }

  lemma SliceFront(a: seq<Byte>, b: seq<Byte>, at: nat, n: nat)
    requires at + n <= |a|
    ensures (a + b)[at..at + n] == a[at..at + n]
  {}

  lemma SliceBack(a: seq<Byte>, b: seq<Byte>, at: nat, n: nat)
    requires at + n <= |b|
    ensures (a + b)[|a| + at..|a| + at + n] == b[at..at + n]
  {}
}
