/** drivers/vfat/main.c: the FAT as an allocator of cluster chains, and files as byte sequences over it. */
module Vfat {
  import opened Bits
  import opened Bytes
  import opened Results
  import opened VfatLayout

  /** Both FAT copies agree, and every file is a chain of its own. */
  ghost predicate FatSound(g: Geometry, disk: seq<Byte>, files: map<nat, seq<nat>>) {
    && g.Ok() && g.dataOffset <= |disk|
    && Fat1(g, disk) == Fat2(g, disk)
    && FilesOk(Fat1(g, disk), files)
  }

  /** The FAT may have more entries than there are clusters; only files need data behind their clusters. */
  ghost predicate VolumeOk(g: Geometry, disk: seq<Byte>, files: map<nat, seq<nat>>) {
    FatSound(g, disk, files) && FilesBacked(g, disk, files)
  }

  /** Every free entry has data behind it. */
  ghost predicate FreeBacked(g: Geometry, fat: seq<nat>, size: nat) {
    forall c :: 2 <= c < |fat| && fat[c] == 0 ==> HasData(g, c, size)
  }

  /** The clusters of files have data behind them. */
  ghost predicate FilesBacked(g: Geometry, disk: seq<Byte>, files: map<nat, seq<nat>>) {
    forall f :: f in files ==> ChainOnDisk(g, disk, files[f])
  }

  ghost predicate NoFreeCluster(g: Geometry, disk: seq<Byte>)
    requires g.fatOffset + 2 * g.fatSize <= |disk|
  {
    forall c :: 2 <= c < g.Max() ==> Fat1(g, disk)[c] != 0
  }

  /** The disk after set_next_cluster(from, to). */
  function WithNext(g: Geometry, disk: seq<Byte>, from: nat, to: nat): (d: seq<Byte>)
    requires g.Ok() && g.fatOffset + 2 * g.fatSize <= |disk| && from < g.Max()
    ensures |d| == |disk|
  {
    Splice(Splice(disk, g.fatOffset + 4 * from, Le32(to)), g.fatOffset + g.fatSize + 4 * from, Le32(to))
  }

  /** Both copies get the new entry, and no data byte changes. */
  lemma WithNextEffect(g: Geometry, disk: seq<Byte>, from: nat, to: nat)
    requires g.Ok() && g.dataOffset <= |disk| && from < g.Max() && to < TWO_32
    ensures Fat1(g, WithNext(g, disk, from, to)) == Fat1(g, disk)[from := to]
    ensures Fat2(g, WithNext(g, disk, from, to)) == Fat2(g, disk)[from := to]
    ensures forall j :: g.dataOffset <= j < |disk| ==> WithNext(g, disk, from, to)[j] == disk[j]
  {
    hide FatAt, Splice, Le32;
    var at1, at2, n := g.fatOffset, g.fatOffset + g.fatSize, g.Max();
    var mid := Splice(disk, at1 + 4 * from, Le32(to));
    FatSet(disk, at1, n, from, to);
    FatKept(disk, at2, n, at1 + 4 * from, Le32(to));
    FatSet(mid, at2, n, from, to);
    FatKept(mid, at1, n, at2 + 4 * from, Le32(to));
  }

  /** Every file of `files` other than `except` has the same bytes on both disks. */
  ghost predicate SameContents(g: Geometry, disk: seq<Byte>, disk': seq<Byte>, files: map<nat, seq<nat>>, except: int) {
    forall h :: h in files && h != except ==>
      ChainOnDisk(g, disk, files[h]) && ChainOnDisk(g, disk', files[h])
      && Content(g, disk', files[h]) == Content(g, disk, files[h])
  }

  lemma ContentsKept(g: Geometry, disk: seq<Byte>, disk': seq<Byte>, files: map<nat, seq<nat>>)
    requires |disk'| == |disk| && forall j :: g.dataOffset <= j < |disk| ==> disk'[j] == disk[j]
    requires FilesBacked(g, disk, files)
    ensures FilesBacked(g, disk', files) && SameContents(g, disk, disk', files, -1)
  {
    hide Content, ChainOnDisk;
    forall f | f in files
      ensures ChainOnDisk(g, disk', files[f]) && Content(g, disk', files[f]) == Content(g, disk, files[f])
    {
      ContentKept(g, disk, disk', files[f]);
    }
  }

  /** A file that is now longer and begins with its old bytes. */
  ghost predicate Longer(g: Geometry, disk: seq<Byte>, chain: seq<nat>, disk': seq<Byte>, chain': seq<nat>) {
    && ChainOnDisk(g, disk, chain) && ChainOnDisk(g, disk', chain')
    && chain <= chain' && Content(g, disk, chain) <= Content(g, disk', chain')
  }

  lemma LinkFat(fat: seq<nat>, files: map<nat, seq<nat>>, f: nat, next: nat, g: Geometry, size: nat)
    requires FilesOk(fat, files) && f in files && 2 <= next < |fat| && fat[next] == 0
    ensures files[f] != [] && files[f][|files[f]| - 1] < |fat| && files[f][|files[f]| - 1] >= 2
    ensures var fat' := fat[files[f][|files[f]| - 1] := next][next := EOC];
      FilesOk(fat', files[f := files[f] + [next]]) && (FreeBacked(g, fat, size) ==> FreeBacked(g, fat', size))
  {
    hide HasData;
    assert IsChain(fat, files[f]);
    Extend(fat, files, f, next);
  }

  lemma LinkData(g: Geometry, disk: seq<Byte>, disk': seq<Byte>, files: map<nat, seq<nat>>, f: nat, next: nat)
    requires FilesBacked(g, disk, files) && f in files && HasData(g, next, |disk|)
    requires |disk'| == |disk| && forall j :: g.dataOffset <= j < |disk| ==> disk'[j] == disk[j]
    ensures FilesBacked(g, disk', files[f := files[f] + [next]])
    ensures SameContents(g, disk, disk', files, -1)
    ensures Longer(g, disk, files[f], disk', files[f] + [next])
  {
    hide Content, HasData;
    ContentsKept(g, disk, disk', files);
    ContentOfLonger(g, disk', files[f], next);
  }

  /** The two set_next_cluster calls that append `next` behind `last`. */
  function Linked(g: Geometry, disk: seq<Byte>, last: nat, next: nat): (d: seq<Byte>)
    requires g.Ok() && g.fatOffset + 2 * g.fatSize <= |disk| && last < g.Max() && next < g.Max()
    ensures |d| == |disk|
  {
    WithNext(g, WithNext(g, disk, last, next), next, EOC)
  }

  lemma LinkedEffect(g: Geometry, disk: seq<Byte>, last: nat, next: nat)
    requires g.Ok() && g.dataOffset <= |disk| && last < g.Max() && next < g.Max()
    ensures Fat1(g, Linked(g, disk, last, next)) == Fat1(g, disk)[last := next][next := EOC]
    ensures Fat2(g, Linked(g, disk, last, next)) == Fat2(g, disk)[last := next][next := EOC]
    ensures forall j :: g.dataOffset <= j < |disk| ==> Linked(g, disk, last, next)[j] == disk[j]
  {
    hide WithNext, Fat1, Fat2;
    WithNextEffect(g, disk, last, next);
    WithNextEffect(g, WithNext(g, disk, last, next), next, EOC);
  }

  /** Linking a free cluster behind a file keeps the FAT and all contents sound. If it has data, its bytes are appended
      to the file; otherwise the file has a cluster without data. */
  lemma LinkKeepsVolume(g: Geometry, disk: seq<Byte>, files: map<nat, seq<nat>>, f: nat, last: nat, next: nat)
    requires VolumeOk(g, disk, files) && 2 <= next < g.Max() && Fat1(g, disk)[next] == 0
    requires f in files && files[f] != [] && last == files[f][|files[f]| - 1] && last < g.Max()
    ensures FatSound(g, Linked(g, disk, last, next), files[f := files[f] + [next]])
    ensures SameContents(g, disk, Linked(g, disk, last, next), files, -1)
    ensures VolumeOk(g, Linked(g, disk, last, next), files[f := files[f] + [next]]) <==> HasData(g, next, |disk|)
    ensures HasData(g, next, |disk|) ==> Longer(g, disk, files[f], Linked(g, disk, last, next), files[f] + [next])
    ensures FreeBacked(g, Fat1(g, disk), |disk|) ==> FreeBacked(g, Fat1(g, Linked(g, disk, last, next)), |disk|)
  {
    hide IsChain, Fat1, Fat2, Content, Linked, FilesOk, FreeBacked, FilesBacked, ChainOnDisk, HasData;
    var disk' := Linked(g, disk, last, next);
    LinkFat(Fat1(g, disk), files, f, next, g, |disk|);
    LinkedEffect(g, disk, last, next);
    ContentsKept(g, disk, disk', files);
    if HasData(g, next, |disk|) { LinkData(g, disk, disk', files, f, next); }
    if FilesBacked(g, disk', files[f := files[f] + [next]]) { LastHasData(g, disk', files, f, next); }
  }

  lemma LastHasData(g: Geometry, disk: seq<Byte>, files: map<nat, seq<nat>>, f: nat, next: nat)
    requires f in files && FilesBacked(g, disk, files[f := files[f] + [next]])
    ensures HasData(g, next, |disk|)
  {
    var files' := files[f := files[f] + [next]];
    assert ChainOnDisk(g, disk, files'[f]);
    assert HasData(g, files'[f][|files[f]|], |disk|);
  }

  /** A file begun with the lowest free cluster keeps the FAT and the other files sound, and it has data itself exactly
      if some free cluster has. */
  lemma BeginKeepsVolume(g: Geometry, disk: seq<Byte>, files: map<nat, seq<nat>>, c: nat)
    requires VolumeOk(g, disk, files) && c < g.Max() && FirstFree(Fat1(g, disk), c)
    ensures c !in files && FatSound(g, WithNext(g, disk, c, EOC), files[c := [c]])
    ensures SameContents(g, disk, WithNext(g, disk, c, EOC), files, -1)
    ensures VolumeOk(g, WithNext(g, disk, c, EOC), files[c := [c]]) <==> SomeUsable(g, Fat1(g, disk), |disk|)
  {
    hide IsChain, FatAt, Content, WithNext, FilesOk, HasData, SomeUsable;
    WithNextEffect(g, disk, c, EOC);
    Begin(Fat1(g, disk), files, c);
    ContentsKept(g, disk, WithNext(g, disk, c, EOC), files);
    HandedOut(g, Fat1(g, disk), |disk|, c);
    var disk', files' := WithNext(g, disk, c, EOC), files[c := [c]];
    if FilesBacked(g, disk', files') {
      assert ChainOnDisk(g, disk', files'[c]);
      assert HasData(g, files'[c][0], |disk|);
    }
  }

  lemma BlockFat(g: Geometry, disk: seq<Byte>, at: nat, bytes: seq<Byte>)
    requires g.Ok() && g.dataOffset <= at && at + |bytes| <= |disk|
    ensures Fat1(g, Splice(disk, at, bytes)) == Fat1(g, disk) && Fat2(g, Splice(disk, at, bytes)) == Fat2(g, disk)
  {
    hide FatAt, Splice;
    FatKept(disk, g.fatOffset, g.Max(), at, bytes);
    FatKept(disk, g.fatOffset + g.fatSize, g.Max(), at, bytes);
  }

  /** The disk after xtWriteFile of `bytes` at position `at` of cluster c. */
  function PutBlock(g: Geometry, disk: seq<Byte>, c: nat, at: nat, bytes: seq<Byte>): (d: seq<Byte>)
    requires HasData(g, c, |disk|) && at + |bytes| <= g.clusterSize
    ensures |d| == |disk|
  {
    StaysInCluster(g, disk, c, at, bytes);
    Splice(disk, ClusterStart(g, c) + at, bytes)
  }

  lemma BlockOthers(g: Geometry, disk: seq<Byte>, files: map<nat, seq<nat>>, f: nat, c: nat, at: nat, bytes: seq<Byte>)
    requires FilesBacked(g, disk, files) && HasData(g, c, |disk|) && at + |bytes| <= g.clusterSize
    requires forall h :: h in files && h != f ==> c !in files[h]
    ensures SameContents(g, disk, PutBlock(g, disk, c, at, bytes), files, f)
  {
    hide Content, Splice, ClusterStart, ChainOnDisk, HasData;
    var disk' := PutBlock(g, disk, c, at, bytes);
    forall h | h in files && h != f
      ensures ChainOnDisk(g, disk', files[h]) && Content(g, disk', files[h]) == Content(g, disk, files[h])
    {
      OtherChain(g, disk, c, at, bytes, files[h]);
    }
  }

  /** The bytes of cluster q of a file changed like a byte string. */
  ghost predicate SplicedAt(g: Geometry, disk: seq<Byte>, disk': seq<Byte>, chain: seq<nat>, q: nat, at: nat, bytes: seq<Byte>) {
    && ChainOnDisk(g, disk, chain) && ChainOnDisk(g, disk', chain)
    && FilePos(g, q, at) + |bytes| <= |Content(g, disk, chain)|
    && Content(g, disk', chain) == Splice(Content(g, disk, chain), FilePos(g, q, at), bytes)
  }

  lemma BlockOfFile(g: Geometry, disk: seq<Byte>, chain: seq<nat>, q: nat, at: nat, bytes: seq<Byte>)
    requires ChainOnDisk(g, disk, chain) && q < |chain| && HasData(g, chain[q], |disk|) && at + |bytes| <= g.clusterSize
    requires forall i, j :: 0 <= i < j < |chain| ==> chain[i] != chain[j]
    ensures SplicedAt(g, disk, PutBlock(g, disk, chain[q], at, bytes), chain, q, at, bytes)
  {
    hide Content, Splice, ClusterStart, ChainOnDisk, HasData;
    WriteInChain(g, disk, chain, q, at, bytes);
  }

  lemma InChainHasData(g: Geometry, disk: seq<Byte>, chain: seq<nat>, q: nat)
    requires ChainOnDisk(g, disk, chain) && q < |chain|
    ensures HasData(g, chain[q], |disk|) && chain[q] >= 2
  {}

  lemma FileClusters(g: Geometry, disk: seq<Byte>, fat: seq<nat>, files: map<nat, seq<nat>>, f: nat, q: nat)
    requires FilesOk(fat, files) && FilesBacked(g, disk, files) && f in files && q < |files[f]|
    ensures HasData(g, files[f][q], |disk|) && ChainOnDisk(g, disk, files[f])
    ensures forall i, j :: 0 <= i < j < |files[f]| ==> files[f][i] != files[f][j]
    ensures forall h :: h in files && h != f ==> files[f][q] !in files[h]
  {
    assert IsChain(fat, files[f]);
    assert files[f][q] in files[f];
  }

  /** Writing inside one cluster of one file changes that file like a byte string, and nothing else. */
  lemma BlockKeepsVolume(g: Geometry, disk: seq<Byte>, files: map<nat, seq<nat>>, f: nat, q: nat, at: nat, bytes: seq<Byte>)
    requires VolumeOk(g, disk, files) && f in files && q < |files[f]| && at + |bytes| <= g.clusterSize
    requires HasData(g, files[f][q], |disk|)
    ensures VolumeOk(g, PutBlock(g, disk, files[f][q], at, bytes), files)
    ensures SplicedAt(g, disk, PutBlock(g, disk, files[f][q], at, bytes), files[f], q, at, bytes)
    ensures SameContents(g, disk, PutBlock(g, disk, files[f][q], at, bytes), files, f)
  {
    hide Content, Fat1, Fat2, Splice, ClusterStart, FilesBacked, FilesOk, HasData, SplicedAt, SameContents;
    var c := files[f][q];
    BlockOfFiles(g, disk, Fat1(g, disk), files, f, q, at, bytes);
    StartsInData(g, c, |disk|);
    StaysInCluster(g, disk, c, at, bytes);
    BlockFat(g, disk, ClusterStart(g, c) + at, bytes);
  }

  lemma BlockOfFiles(g: Geometry, disk: seq<Byte>, fat: seq<nat>, files: map<nat, seq<nat>>, f: nat, q: nat, at: nat, bytes: seq<Byte>)
    requires FilesOk(fat, files) && FilesBacked(g, disk, files)
    requires f in files && q < |files[f]| && at + |bytes| <= g.clusterSize && HasData(g, files[f][q], |disk|)
    ensures SplicedAt(g, disk, PutBlock(g, disk, files[f][q], at, bytes), files[f], q, at, bytes)
    ensures SameContents(g, disk, PutBlock(g, disk, files[f][q], at, bytes), files, f)
    ensures FilesBacked(g, PutBlock(g, disk, files[f][q], at, bytes), files)
  {
    hide Content, Splice, ClusterStart, ChainOnDisk, HasData, PutBlock, FilesOk;
    FileClusters(g, disk, fat, files, f, q);
    BlockOthers(g, disk, files, f, files[f][q], at, bytes);
    BlockOfFile(g, disk, files[f], q, at, bytes);
  }

  lemma StartsInData(g: Geometry, c: nat, size: nat)
    requires HasData(g, c, size)
    ensures c >= 2 && ClusterStart(g, c) >= g.dataOffset
  {}

  /** What the entry of a file's cluster says. */
  lemma ChainStep(fat: seq<nat>, files: map<nat, seq<nat>>, f: nat, i: nat)
    requires FilesOk(fat, files) && f in files && i < |files[f]| && |fat| <= EOC
    ensures 2 <= files[f][i] < |fat|
    ensures fat[files[f][i]] == if i < |files[f]| - 1 then files[f][i + 1] else EOC
    ensures i < |files[f]| - 1 ==> files[f][i + 1] < EOC
  {
    assert IsChain(fat, files[f]);
  }

  // ----- What a write may change -----

  /** No byte of the data area has changed. */
  ghost predicate DataKept(g: Geometry, before: seq<Byte>, now: seq<Byte>) {
    |now| == |before| && forall j :: g.dataOffset <= j < |now| ==> now[j] == before[j]
  }

  /** Every cluster outside the chain has its old bytes. */
  ghost predicate ClustersKept(g: Geometry, before: seq<Byte>, now: seq<Byte>, chain: seq<nat>) {
    && |now| == |before|
    && forall c :: HasData(g, c, |now|) && c !in chain ==> ClusterBytes(g, now, c) == ClusterBytes(g, before, c)
  }

  /** The data area differs in `data` at `offset` of the file only: what else is in its clusters, also in new ones, is
      what was there before. */
  ghost predicate Wrote(g: Geometry, before: seq<Byte>, now: seq<Byte>, chain: seq<nat>, offset: nat, data: seq<Byte>) {
    && ClustersKept(g, before, now, chain) && ChainOnDisk(g, before, chain) && ChainOnDisk(g, now, chain)
    && offset + |data| <= |Content(g, before, chain)|
    && Content(g, now, chain) == Splice(Content(g, before, chain), offset, data)
  }

  /** The same of the first n bytes of the data. */
  ghost predicate WroteFirst(g: Geometry, before: seq<Byte>, now: seq<Byte>, chain: seq<nat>, offset: nat, data: seq<Byte>,
                             n: nat)
  {
    n <= |data| && Wrote(g, before, now, chain, offset, data[..n])
  }

  /** The same of the data that lies below `end`; of none, if there is none. */
  ghost predicate WroteBelow(g: Geometry, before: seq<Byte>, now: seq<Byte>, chain: seq<nat>, offset: nat, data: seq<Byte>,
                             end: nat)
  {
    if offset >= end then DataKept(g, before, now)
    else WroteFirst(g, before, now, chain, offset, data, if offset + |data| < end then |data| else end - offset)
  }

  lemma KeptBelow(g: Geometry, before: seq<Byte>, now: seq<Byte>, chain: seq<nat>, offset: nat, data: seq<Byte>, end: nat)
    requires DataKept(g, before, now) && offset >= end
    ensures WroteBelow(g, before, now, chain, offset, data, end)
  {}

  lemma AllBelow(g: Geometry, before: seq<Byte>, now: seq<Byte>, chain: seq<nat>, offset: nat, data: seq<Byte>, end: nat)
    requires WroteFirst(g, before, now, chain, offset, data, |data|) && offset + |data| < end
    ensures WroteBelow(g, before, now, chain, offset, data, end)
  {}

  lemma CutBelow(g: Geometry, before: seq<Byte>, now: seq<Byte>, chain: seq<nat>, offset: nat, data: seq<Byte>, end: nat)
    requires offset < end <= offset + |data| && WroteFirst(g, before, now, chain, offset, data, end - offset)
    ensures WroteBelow(g, before, now, chain, offset, data, end)
  {}

  /** The chain has grown by clusters each of which was the lowest free one, and no FAT entry outside it has changed. */
  ghost predicate Grew(before: seq<nat>, now: seq<nat>, chain: seq<nat>, chain': seq<nat>) {
    && |now| == |before| && chain <= chain'
    && (forall c :: 0 <= c < |now| && c !in chain' ==> now[c] == before[c])
    && (forall i :: |chain| <= i < |chain'| ==> WasLowest(before, chain', i))
  }

  ghost predicate WasLowest(fat: seq<nat>, chain: seq<nat>, i: nat)
    requires i < |chain|
  {
    && 2 <= chain[i] < |fat| && fat[chain[i]] == 0
    && forall b :: 2 <= b < chain[i] && fat[b] == 0 ==> b in chain[..i]
  }

  lemma GrewNothing(fat: seq<nat>, chain: seq<nat>)
    ensures Grew(fat, fat, chain, chain)
  {}

  lemma GrewMore(before: seq<nat>, now: seq<nat>, chain: seq<nat>, chain': seq<nat>, next: nat)
    requires Grew(before, now, chain, chain') && chain' != [] && chain'[|chain'| - 1] < |now|
    requires FirstFree(now, next) && next !in chain'
    ensures Grew(before, now[chain'[|chain'| - 1] := next][next := EOC], chain, chain' + [next])
  {
    var longer := chain' + [next];
    assert longer[..|chain'|] == chain' && chain'[|chain'| - 1] in chain';
    forall i | |chain| <= i < |longer| ensures WasLowest(before, longer, i) {
      if i < |chain'| {
        assert WasLowest(before, chain', i);
        assert longer[..i] == chain'[..i];
      }
    }
  }

  lemma GrewTwice(a: seq<nat>, b: seq<nat>, c: seq<nat>, x: seq<nat>, y: seq<nat>, z: seq<nat>)
    requires Grew(a, b, x, y) && Grew(b, c, y, z)
    requires forall i :: |y| <= i < |z| ==> z[i] !in y
    ensures Grew(a, c, x, z)
  {
    assert forall c :: c in y ==> c in z by { assert forall i :: 0 <= i < |y| ==> z[i] == y[i]; }
    forall i | |x| <= i < |z| ensures WasLowest(a, z, i) {
      if i < |y| {
        assert WasLowest(a, y, i);
        assert z[..i] == y[..i];
      } else {
        assert WasLowest(b, z, i);
        assert z[..i][..|y|] == y;
        assert forall d :: d in y ==> d in z[..i] by { assert forall k :: 0 <= k < |y| ==> z[..i][k] == y[k]; }
      }
    }
  }

  lemma KeptClusters(g: Geometry, before: seq<Byte>, now: seq<Byte>, chain: seq<nat>)
    requires DataKept(g, before, now)
    ensures ClustersKept(g, before, now, chain)
  {
    hide ClusterBytes, HasData;
    forall c | HasData(g, c, |now|) ensures ClusterBytes(g, now, c) == ClusterBytes(g, before, c) {
      ClusterKept(g, before, now, c);
    }
  }

  lemma WroteNothing(g: Geometry, before: seq<Byte>, now: seq<Byte>, chain: seq<nat>, offset: nat)
    requires DataKept(g, before, now) && ChainOnDisk(g, before, chain) && offset <= |Content(g, before, chain)|
    ensures Wrote(g, before, now, chain, offset, [])
  {
    hide Content, ChainOnDisk, ClustersKept;
    KeptClusters(g, before, now, chain);
    ContentKept(g, before, now, chain);
  }

  lemma WroteKept(g: Geometry, before: seq<Byte>, now: seq<Byte>, after: seq<Byte>, chain: seq<nat>,
                  offset: nat, data: seq<Byte>)
    requires Wrote(g, before, now, chain, offset, data) && DataKept(g, now, after)
    ensures Wrote(g, before, after, chain, offset, data)
  {
    hide Content, ClusterBytes, HasData, Splice;
    KeptClusters(g, now, after, chain);
    ContentKept(g, now, after, chain);
  }

  /** A new cluster brings the bytes it had before. */
  lemma WroteLonger(g: Geometry, before: seq<Byte>, now: seq<Byte>, after: seq<Byte>, chain: seq<nat>, next: nat,
                    offset: nat, data: seq<Byte>)
    requires Wrote(g, before, now, chain, offset, data) && DataKept(g, now, after)
    requires next !in chain && HasData(g, next, |now|)
    ensures Wrote(g, before, after, chain + [next], offset, data)
  {
    hide Content, ClusterBytes, HasData, Splice;
    KeptClusters(g, now, after, chain + [next]);
    ContentKept(g, now, after, chain);
    ContentOfLonger(g, before, chain, next);
    ContentOfLonger(g, after, chain, next);
    KeptClusters(g, now, after, []);
    SpliceFront(Content(g, before, chain), ClusterBytes(g, before, next), offset, data);
  }

  /** One more block in the cluster where the data written so far ends. */
  lemma WroteMore(g: Geometry, before: seq<Byte>, now: seq<Byte>, chain: seq<nat>, q: nat, at: nat,
                  offset: nat, data: seq<Byte>, n: nat, m: nat)
    requires n + m <= |data| && Wrote(g, before, now, chain, offset, data[..n])
    requires q < |chain| && HasData(g, chain[q], |now|) && at + m <= g.clusterSize && FilePos(g, q, at) == offset + n
    requires forall i, j :: 0 <= i < j < |chain| ==> chain[i] != chain[j]
    ensures Wrote(g, before, PutBlock(g, now, chain[q], at, data[n..n + m]), chain, offset, data[..n + m])
  {
    hide Content, ClusterBytes, HasData, Splice, PutBlock, ClusterStart, ChainOnDisk;
    var after := PutBlock(g, now, chain[q], at, data[n..n + m]);
    BlockOfFile(g, now, chain, q, at, data[n..n + m]);
    BlockClusters(g, before, now, chain, q, at, data[n..n + m]);
    SpliceMore(Content(g, before, chain), offset, data, n, m);
  }

  lemma BlockClusters(g: Geometry, before: seq<Byte>, now: seq<Byte>, chain: seq<nat>, q: nat, at: nat, bytes: seq<Byte>)
    requires ClustersKept(g, before, now, chain) && q < |chain| && HasData(g, chain[q], |now|)
    requires at + |bytes| <= g.clusterSize
    ensures ClustersKept(g, before, PutBlock(g, now, chain[q], at, bytes), chain)
  {
    hide ClusterBytes, HasData, Splice, ClusterStart;
    var after := PutBlock(g, now, chain[q], at, bytes);
    forall c | HasData(g, c, |now|) && c !in chain ensures ClusterBytes(g, after, c) == ClusterBytes(g, before, c) {
      StaysInCluster(g, now, chain[q], at, bytes);
      OtherCluster(g, now, chain[q], at, bytes, c);
    }
  }

  lemma SpliceMore(bytes: seq<Byte>, offset: nat, data: seq<Byte>, n: nat, m: nat)
    requires n + m <= |data| && offset + n + m <= |bytes|
    ensures Splice(Splice(bytes, offset, data[..n]), offset + n, data[n..n + m]) == Splice(bytes, offset, data[..n + m])
  {
    var a, b := Splice(Splice(bytes, offset, data[..n]), offset + n, data[n..n + m]), Splice(bytes, offset, data[..n + m]);
    hide Splice;
    forall k | 0 <= k < |bytes| ensures a[k] == b[k] {}
    assert a == b;
  }

  lemma {:induction false} ContentPrefix(g: Geometry, disk: seq<Byte>, chain: seq<nat>, n: nat)
    requires ChainOnDisk(g, disk, chain) && n <= |chain|
    ensures ChainOnDisk(g, disk, chain[..n]) && Content(g, disk, chain[..n]) <= Content(g, disk, chain)
    decreases |chain|
  {
    hide ClusterBytes, HasData;
    if n == |chain| {
      assert chain[..n] == chain;
    } else {
      ContentLast(g, disk, chain);
      hide Content;
      ContentPrefix(g, disk, chain[..|chain| - 1], n);
      assert chain[..|chain| - 1][..n] == chain[..n];
    }
  }

  /** The bytes of the file that were there before, and the data. */
  lemma WroteStored(g: Geometry, before: seq<Byte>, now: seq<Byte>, chain: seq<nat>, chain': seq<nat>,
                    offset: nat, data: seq<Byte>)
    requires Wrote(g, before, now, chain', offset, data) && chain <= chain'
    ensures ChainOnDisk(g, before, chain)
    ensures Stored(Content(g, before, chain), Content(g, now, chain'), offset, data, |data|)
  {
    hide Content, ChainOnDisk, ClustersKept;
    assert chain'[..|chain|] == chain;
    ContentPrefix(g, before, chain', |chain|);
    SplicedStored(Content(g, before, chain), Content(g, before, chain'), offset, data);
  }

  lemma SplicedStored(before: seq<Byte>, longer: seq<Byte>, offset: nat, data: seq<Byte>)
    requires before <= longer && offset + |data| <= |longer|
    ensures Stored(before, Splice(longer, offset, data), offset, data, |data|)
  {
    assert data[..|data|] == data;
  }

  /** Every file but f has the same chain and the same bytes. */
  ghost predicate OthersSame(g: Geometry, disk: seq<Byte>, files: map<nat, seq<nat>>,
                             disk': seq<Byte>, files': map<nat, seq<nat>>, f: nat)
  {
    && files'.Keys == files.Keys && SameContents(g, disk, disk', files, f)
    && forall h :: h in files && h != f ==> files'[h] == files[h]
  }

  lemma OthersTwice(g: Geometry, d0: seq<Byte>, f0: map<nat, seq<nat>>, d1: seq<Byte>, f1: map<nat, seq<nat>>,
                    d2: seq<Byte>, f2: map<nat, seq<nat>>, f: nat)
    requires OthersSame(g, d0, f0, d1, f1, f) && OthersSame(g, d1, f1, d2, f2, f)
    ensures OthersSame(g, d0, f0, d2, f2, f)
  {
    hide Content, ChainOnDisk;
  }

  lemma OthersNow(g: Geometry, disk: seq<Byte>, files: map<nat, seq<nat>>, f: nat)
    requires FilesBacked(g, disk, files)
    ensures OthersSame(g, disk, files, disk, files, f)
  {
    hide Content, ChainOnDisk;
  }

  lemma OthersIn(g: Geometry, disk: seq<Byte>, files: map<nat, seq<nat>>, disk': seq<Byte>, files': map<nat, seq<nat>>, f: nat)
    requires OthersSame(g, disk, files, disk', files', f)
    ensures f in files <==> f in files'
  {}

  lemma SameLength(g: Geometry, before: seq<Byte>, now: seq<Byte>)
    requires DataKept(g, before, now)
    ensures |now| == |before|
  {}

  lemma SizeOfContent(g: Geometry, a: seq<Byte>, b: seq<Byte>, chain: seq<nat>)
    requires ChainOnDisk(g, a, chain) && ChainOnDisk(g, b, chain)
    ensures |Content(g, a, chain)| == |Content(g, b, chain)|
  {}

  class Volume {
    const g: Geometry
    var disk: seq<Byte>
    ghost var files: map<nat, seq<nat>>

    ghost predicate Valid()
      reads this
    {
      VolumeOk(g, disk, files)
    }

    /** The FAT entries. */
    ghost function Fat(): seq<nat>
      requires Valid()
      reads this
    {
      Fat1(g, disk)
    }

    ghost function FileBytes(f: nat): seq<Byte>
      requires Valid() && f in files
      reads this
    {
      Content(g, disk, files[f])
    }

    /** How many clusters file f can come to have: those it has and the free ones with data. */
    ghost function Room(f: nat): nat
      requires Valid() && f in files
      reads this
    {
      |files[f]| + |UsableSet(g, Fat1(g, disk), |disk|)|
    }

    /** Every free entry has data behind it. */
    ghost predicate AllBacked()
      requires Valid()
      reads this
    {
      FreeBacked(g, Fat1(g, disk), |disk|)
    }

    /** Every file but f has the same chain and the same bytes as before. */
    twostate predicate OthersKept(f: nat)
      reads this
    {
      OthersSame(g, old(disk), old(files), disk, files, f)
    }

    constructor (g: Geometry, disk: seq<Byte>, ghost files: map<nat, seq<nat>>)
      requires VolumeOk(g, disk, files)
      ensures Valid() && this.g == g && this.disk == disk && this.files == files
    {
      this.g, this.disk, this.files := g, disk, files;
    }

    /** get_next_cluster */
    method GetNextCluster(cluster: nat) returns (next: nat)
      requires Valid() && cluster < g.Max()
      ensures next == if cluster < 2 then EOC else Fat1(g, disk)[cluster]
    {
      if cluster < 2 { return EOC; }
      return Word32(disk, g.fatOffset + cluster * 4);
    }

    /** set_next_cluster writes both copies of the FAT. */
    method SetNextCluster(from: nat, to: nat) returns (done: bool)
      requires g.Ok() && g.dataOffset <= |disk| && from < g.Max() && to < TWO_32
      modifies this`disk
      ensures done <==> from >= 2 && to != 0 && to != 1
      ensures disk == if done then WithNext(g, old(disk), from, to) else old(disk)
    {
      if from < 2 || to == 0 || to == 1 { return false; }
      disk := Splice(disk, g.fatOffset + from * 4, Le32(to));
      disk := Splice(disk, g.fatOffset + g.fatSize + from * 4, Le32(to));
      return true;
    }

    /** find_free_cluster returns the first free cluster, or EOC when there is none. */
    method FindFreeCluster() returns (c: nat)
      requires Valid()
      ensures c == EOC ==> NoFreeCluster(g, disk)
      ensures c != EOC ==> c < g.Max() && FirstFree(Fat1(g, disk), c)
    {
      var i := 2;
      while i < g.Max()
        invariant 2 <= i
        invariant forall b :: 2 <= b < i && b < g.Max() ==> Fat1(g, disk)[b] != 0
      {
        if Word32(disk, g.fatOffset + i * 4) == 0 { return i; }
        i := i + 1;
      }
      return EOC;
    }

    /** The step to the next cluster of lines 185 to 192 and 209 to 216, which grows the file at its end. */
    method NextCluster(current: nat, ghost f: nat, ghost i: nat) returns (next: nat)
      requires Valid() && f in files && i < |files[f]| && files[f][i] == current
      requires i + 1 < Room(f) || NoFreeCluster(g, disk)
      modifies this
      ensures Valid() && OthersKept(f) && |disk| == old(|disk|) && (old(AllBacked()) ==> AllBacked())
      ensures old(files[f]) <= files[f] && old(FileBytes(f)) <= FileBytes(f)
      ensures next != EOC ==> i + 1 < |files[f]| && files[f][i + 1] == next
      ensures next == EOC ==> NoFreeCluster(g, disk) && disk == old(disk) && files == old(files)
      ensures Room(f) == old(Room(f)) && (next == EOC ==> Room(f) == |files[f]| == i + 1)
      ensures |files[f]| == if next == EOC then old(|files[f]|) else Max(old(|files[f]|), i + 2)
      ensures DataKept(g, old(disk), disk) && Grew(old(Fat()), Fat(), old(files[f]), files[f])
    {
      hide Content, Fat1, WithNext, ChainOnDisk, FilesOk, FilesBacked, UsableSet, HasData, SomeUsable, Grew;
      ghost var chain := files[f];
      GrewNothing(Fat1(g, disk), chain);
      OthersNow(g, disk, files, f);
      ChainStep(Fat1(g, disk), files, f, i);
      next := GetNextCluster(current);
      if next == EOC {
        assert i == |chain| - 1;
        UsableCount(g, Fat1(g, disk), |disk|);
        next := FindFreeCluster();
        if next == EOC {
          NoneUsable(g, Fat1(g, disk), |disk|);
          return;
        }
        HandedOut(g, Fat1(g, disk), |disk|, next);
        LinkKeepsVolume(g, disk, files, f, current, next);
        LinkedEffect(g, disk, current, next);
        LinkUsesOne(g, Fat1(g, disk), |disk|, current, next);
        FreeIsUnused(Fat1(g, disk), files, next);
        GrewMore(Fat1(g, disk), Fat1(g, disk), chain, chain, next);
        var a := SetNextCluster(current, next);
        var b := SetNextCluster(next, EOC);
        files := files[f := files[f] + [next]];
      }
    }

    /** Where all free entries have data, no request runs into one that has none. */
    lemma BackedRoom(f: nat, i: nat)
      requires Valid() && f in files && i < |files[f]| && AllBacked()
      ensures i + 1 < Room(f) || NoFreeCluster(g, disk)
    {
      hide UsableSet, HasData, SomeUsable;
      var fat := Fat1(g, disk);
      UsableCount(g, fat, |disk|);
      if !NoFreeCluster(g, disk) {
        var c :| 2 <= c < |fat| && fat[c] == 0;
        IsUsable(g, fat, |disk|, c);
      }
    }

    /** xtWriteFile on the device, inside one cluster of a file. */
    method WriteBlock(cluster: nat, at: nat, bytes: seq<Byte>, ghost f: nat, ghost q: nat) returns (n: nat)
      requires Valid() && f in files && q < |files[f]| && files[f][q] == cluster && at + |bytes| <= g.clusterSize
      modifies this`disk
      ensures Valid() && OthersKept(f) && |disk| == old(|disk|) && n == |bytes|
      ensures HasData(g, cluster, |disk|) && disk == PutBlock(g, old(disk), cluster, at, bytes)
      ensures Fat() == old(Fat())
      ensures FilePos(g, q, at) + |bytes| <= |old(FileBytes(f))|
      ensures FileBytes(f) == Splice(old(FileBytes(f)), FilePos(g, q, at), bytes)
      ensures files == old(files) && Room(f) == old(Room(f)) && (old(AllBacked()) ==> AllBacked())
    {
      hide Content, FilesOk, FilesBacked, ChainOnDisk, Splice, Fat1, Fat2, FilePos, ClusterStart, HasData, UsableSet;
      ghost var before := disk;
      FileClusters(g, disk, Fat1(g, disk), files, f, q);
      BlockKeepsVolume(g, disk, files, f, q, at, bytes);
      InData(g, cluster, |disk|, at, |bytes|);
      StartsInData(g, cluster, |disk|);
      BlockFat(g, disk, ClusterStart(g, cluster) + at, bytes);
      disk := Splice(disk, ClusterStart(g, cluster) + at, bytes);
      n := |bytes|;
    }

    /** The cluster walk at the head of both transfer loops, for writing: it grows the file as far as needed. */
    method SeekForWrite(f: nat, clusterIndex: nat) returns (ok: bool, current: nat)
      requires Valid() && f in files && (clusterIndex < Room(f) || AllBacked())
      modifies this
      ensures Valid() && OthersKept(f) && |disk| == old(|disk|) && (old(AllBacked()) ==> AllBacked())
      ensures old(files[f]) <= files[f] && old(FileBytes(f)) <= FileBytes(f)
      ensures ok ==> clusterIndex < |files[f]| && files[f][clusterIndex] == current
      ensures !ok ==> NoFreeCluster(g, disk)
      ensures Room(f) == old(Room(f)) && (ok <==> clusterIndex < Room(f))
      ensures |files[f]| == if ok then Max(old(|files[f]|), clusterIndex + 1) else Room(f)
      ensures DataKept(g, old(disk), disk) && Grew(old(Fat()), Fat(), old(files[f]), files[f])
    {
      hide Content, FilesOk, FilesBacked, ChainOnDisk, Fat1, Fat2, UsableSet, Grew;
      FirstCluster(Fat1(g, disk), files, f);
      GrewNothing(Fat1(g, disk), files[f]);
      OthersNow(g, disk, files, f);
      current := f;
      var i := 0;
      while i < clusterIndex
        invariant Valid() && f in files && OthersKept(f) && |disk| == old(|disk|) && (old(AllBacked()) ==> AllBacked())
        invariant 0 <= i <= clusterIndex && i < |files[f]|
        invariant old(files[f]) <= files[f] && old(FileBytes(f)) <= FileBytes(f)
        invariant files[f][i] == current && Room(f) == old(Room(f)) && |files[f]| == Max(old(|files[f]|), i + 1)
        invariant DataKept(g, old(disk), disk) && Grew(old(Fat()), Fat(), old(files[f]), files[f])
      {
        if clusterIndex >= Room(f) { BackedRoom(f, i); }
        ghost var fat, chain := Fat(), files[f];
        var next := NextCluster(current, f, i);
        GrewOnce(f, old(Fat()), fat, old(files[f]), chain);
        if next == EOC { return false, current; }
        current := next;
        i := i + 1;
      }
      ok := true;
    }

    lemma NotGrown(f: nat)
      requires Valid() && f in files
      ensures Grew(Fat(), Fat(), files[f], files[f]) && OthersSame(g, disk, files, disk, files, f)
    {
      GrewNothing(Fat(), files[f]);
      OthersNow(g, disk, files, f);
    }

    /** The clusters of a file are distinct, so growth adds up. */
    lemma GrewOnce(f: nat, a: seq<nat>, b: seq<nat>, x: seq<nat>, y: seq<nat>)
      requires Valid() && f in files && Grew(a, b, x, y) && Grew(b, Fat(), y, files[f])
      ensures Grew(a, Fat(), x, files[f])
    {
      var z := files[f];
      assert IsChain(Fat1(g, disk), z);
      forall i | |y| <= i < |z| ensures z[i] !in y {
        forall k | 0 <= k < |y| ensures y[k] != z[i] { assert y[k] == z[k] != z[i]; }
      }
      hide Fat1, Grew;
      GrewTwice(a, b, Fat1(g, disk), x, y, z);
    }

    lemma Sizes(f: nat)
      requires Valid() && f in files
      ensures g.clusterSize > 0 && |files[f]| > 0 && |FileBytes(f)| == FilePos(g, |files[f]|, 0)
    {
      FirstCluster(Fat1(g, disk), files, f);
    }

    lemma RoomForFile(f: nat)
      requires Valid() && f in files
      ensures |files[f]| <= Room(f)
    {}

    /** One turn of the transfer loop, lines 195 to 217: a block, and the next cluster when this one is full. */
    method WriteChunk(current: nat, data: seq<Byte>, offset: nat, written: nat, ghost f: nat, ghost before: seq<Byte>)
      returns (n: nat, next: nat)
      requires Valid() && f in files && g.clusterSize > 0 && written < |data|
      requires ClusterIndex(g, offset + written) < |files[f]| && files[f][ClusterIndex(g, offset + written)] == current
      requires WroteFirst(g, before, disk, files[f], offset, data, written)
      requires ClusterIndex(g, offset + |data|) < Room(f) || AllBacked()
      modifies this
      ensures Valid() && OthersKept(f) && old(files[f]) <= files[f] && 0 < n <= |data| - written
      ensures WroteFirst(g, before, disk, files[f], offset, data, written + n)
      ensures Room(f) == old(Room(f)) && (old(AllBacked()) ==> AllBacked())
      ensures next == EOC ==> NoFreeCluster(g, disk)
      ensures next != EOC ==> ClusterIndex(g, offset + (written + n)) < |files[f]|
      ensures next != EOC ==> files[f][ClusterIndex(g, offset + (written + n))] == next
      ensures next == EOC ==> ClusterIndex(g, offset + (written + n)) == Room(f)
      ensures next == EOC ==> offset + (written + n) == FilePos(g, Room(f), 0)
      ensures |files[f]| == if next == EOC then Room(f)
                            else Max(old(|files[f]|), ClusterIndex(g, offset + (written + n)) + 1)
      ensures Grew(old(Fat()), Fat(), old(files[f]), files[f])
    {
      hide Valid, FileBytes, Splice, WroteFirst, NoFreeCluster, FilePos, ClusterPos, ClusterIndex, Room, AllBacked, Grew, Fat;
      hide PutBlock, HasData, DataKept;
      ghost var q := ClusterIndex(g, offset + written);
      var pos := ClusterPos(g, offset + written);
      var toWrite := g.clusterSize - pos;
      Position(g, offset + written);
      if toWrite > |data| - written { toWrite := |data| - written; }
      NextPosition(g, offset + written, toWrite);
      assert offset + written + toWrite == offset + (written + toWrite);
      SmallCluster(f, q);
      ghost var disk1 := disk;
      n := WriteBlock(current, pos, data[written..written + toWrite], f, q);
      BlockWritten(f, before, disk1, q, pos, offset, data, written, toWrite);
      next := current;
      NotGrown(f);
      if pos + n == g.clusterSize {
        EndOfFile(g, offset + written, toWrite, q + 1);
        IndexGrows(g, offset + (written + n), |data| - (written + n));
        if ClusterIndex(g, offset + |data|) >= Room(f) { BackedRoom(f, q); }
        ghost var disk2, chain := disk, files[f];
        next := NextCluster(current, f, q);
        GrownWritten(f, before, disk2, chain, offset, data, written + n);
      }
    }

    lemma BlockWritten(f: nat, before: seq<Byte>, now: seq<Byte>, q: nat, at: nat, offset: nat, data: seq<Byte>, n: nat, m: nat)
      requires Valid() && f in files && q < |files[f]| && n + m <= |data| && FilePos(g, q, at) == offset + n
      requires WroteFirst(g, before, now, files[f], offset, data, n) && HasData(g, files[f][q], |now|) && at + m <= g.clusterSize
      requires disk == PutBlock(g, now, files[f][q], at, data[n..n + m])
      ensures WroteFirst(g, before, disk, files[f], offset, data, n + m)
    {
      hide Wrote, FilePos, HasData, PutBlock, Fat1, Fat2;
      FileClusters(g, disk, Fat1(g, disk), files, f, q);
      WroteMore(g, before, now, files[f], q, at, offset, data, n, m);
    }

    lemma GrownWritten(f: nat, before: seq<Byte>, now: seq<Byte>, chain: seq<nat>, offset: nat, data: seq<Byte>, n: nat)
      requires Valid() && f in files && chain <= files[f] && |files[f]| <= |chain| + 1
      requires WroteFirst(g, before, now, chain, offset, data, n) && DataKept(g, now, disk)
      ensures WroteFirst(g, before, disk, files[f], offset, data, n)
    {
      hide Fat1, Fat2, HasData, Wrote;
      if |files[f]| == |chain| {
        assert files[f] == chain;
        WroteKept(g, before, now, disk, chain, offset, data[..n]);
      } else {
        var next := files[f][|chain|];
        assert files[f] == chain + [next];
        FileClusters(g, disk, Fat1(g, disk), files, f, |chain|);
        hide FilesOk, FilesBacked, DataKept;
        SameLength(g, now, disk);
        forall i | 0 <= i < |chain| ensures chain[i] != next { assert chain[i] == files[f][i]; }
        WroteLonger(g, before, now, disk, chain, next, offset, data[..n]);
      }
    }

    lemma SmallCluster(f: nat, q: nat)
      requires Valid() && f in files && q < |files[f]|
      ensures files[f][q] < EOC
    {
      ChainStep(Fat1(g, disk), files, f, q);
    }

    /** The transfer loop, lines 194 to 217. */
    method WriteAll(first: nat, data: seq<Byte>, offset: nat, ghost f: nat, ghost before: seq<Byte>)
      returns (r: XTResult, written: nat)
      requires Valid() && f in files && g.clusterSize > 0
      requires ClusterIndex(g, offset) < |files[f]| && files[f][ClusterIndex(g, offset)] == first
      requires WroteFirst(g, before, disk, files[f], offset, data, 0)
      requires ClusterIndex(g, offset + |data|) < Room(f) || AllBacked()
      modifies this
      ensures Valid() && OthersKept(f) && Room(f) == old(Room(f))
      ensures Grew(old(Fat()), Fat(), old(files[f]), files[f])
      ensures r == XT_SUCCESS ==> written == |data| && WroteFirst(g, before, disk, files[f], offset, data, |data|)
      ensures r == XT_SUCCESS ==> ClusterIndex(g, offset + |data|) < |files[f]|
      ensures r == XT_SUCCESS ==> |files[f]| == Max(old(|files[f]|), ClusterIndex(g, offset + |data|) + 1)
      ensures r != XT_SUCCESS ==> r == XT_END_OF_FILE && NoFreeCluster(g, disk) && |files[f]| == Room(f)
      ensures r != XT_SUCCESS ==> ClusterIndex(g, offset + |data|) >= Room(f)
      ensures r != XT_SUCCESS ==> offset < FilePos(g, Room(f), 0) <= offset + |data|
      ensures r != XT_SUCCESS ==> WroteFirst(g, before, disk, files[f], offset, data, FilePos(g, Room(f), 0) - offset)
    {
      hide Valid, FileBytes, WroteFirst, NoFreeCluster, FilePos, ClusterPos, ClusterIndex, Room, AllBacked, Grew, Fat, OthersSame;
      written := 0;
      var current := first;
      NotGrown(f);
      while written < |data|
        invariant 0 <= written <= |data|
        invariant Valid() && f in files && OthersKept(f)
        invariant ClusterIndex(g, offset + written) < |files[f]|
        invariant files[f][ClusterIndex(g, offset + written)] == current
        invariant |files[f]| == Max(old(|files[f]|), ClusterIndex(g, offset + written) + 1)
        invariant WroteFirst(g, before, disk, files[f], offset, data, written) && Room(f) == old(Room(f))
        invariant Grew(old(Fat()), Fat(), old(files[f]), files[f])
        invariant old(AllBacked()) ==> AllBacked()
      {
        ghost var fat, disk1, files1 := Fat(), disk, files;
        var n, next := WriteChunk(current, data, offset, written, f, before);
        OthersIn(g, disk1, files1, disk, files, f);
        OthersTwice(g, old(disk), old(files), disk1, files1, disk, files, f);
        GrewOnce(f, old(Fat()), fat, old(files[f]), files1[f]);
        IndexGrows(g, offset + written, n);
        assert offset + written + n == offset + (written + n);
        if next == EOC {
          IndexGrows(g, offset + (written + n), |data| - (written + n));
          return XT_END_OF_FILE, 0;
        }
        written := written + n;
        current := next;
      }
      return XT_SUCCESS, written;
    }

    /** The data path of vfatWriteFile. */
    method WriteFile(f: nat, data: seq<Byte>, offset: nat) returns (r: XTResult, written: nat)
      requires Valid() && f in files && g.clusterSize > 0 && ClusterIndex(g, offset) < TWO_32
      requires ClusterIndex(g, offset + |data|) < Room(f) || AllBacked()
      modifies this
      ensures Valid() && OthersKept(f)
      ensures r == XT_SUCCESS ==> written == |data| && Stored(old(FileBytes(f)), FileBytes(f), offset, data, |data|)
      ensures r == XT_SUCCESS ==> offset + |data| < |FileBytes(f)|
      ensures r != XT_SUCCESS ==> r == XT_END_OF_FILE && NoFreeCluster(g, disk)
      ensures r == XT_SUCCESS <==> ClusterIndex(g, offset + |data|) < old(Room(f))
      ensures |files[f]| == if r == XT_SUCCESS then Max(old(|files[f]|), ClusterIndex(g, offset + |data|) + 1) else old(Room(f))
      ensures Grew(old(Fat()), Fat(), old(files[f]), files[f])
      ensures WroteBelow(g, old(disk), disk, files[f], offset, data, FilePos(g, old(Room(f)), 0))
    {
      hide Valid, FileBytes, Content, Stored, WroteFirst, NoFreeCluster, FilePos, ClusterIndex, Room, AllBacked, Grew, Fat;
      hide DataKept, WroteBelow, OthersSame;
      BytesAre(f);
      written := 0;
      IndexGrows(g, offset, |data|);
      var index := ClusterIndex(g, offset) % TWO_32;
      assert index == ClusterIndex(g, offset);
      hide TWO_32;
      var ok, current := SeekForWrite(f, index);
      OthersIn(g, old(disk), old(files), disk, files, f);
      if !ok {
        BeyondFile(g, offset, Room(f));
        KeptBelow(g, old(disk), disk, files[f], offset, data, FilePos(g, Room(f), 0));
        return XT_END_OF_FILE, 0;
      }
      Sizes(f);
      InsideFile(g, offset, |files[f]|);
      StartWriting(f, old(disk), offset, data);
      ghost var fat, disk1, files1 := Fat(), disk, files;
      r, written := WriteAll(current, data, offset, f, old(disk));
      OthersIn(g, disk1, files1, disk, files, f);
      OthersTwice(g, old(disk), old(files), disk1, files1, disk, files, f);
      GrewOnce(f, old(Fat()), fat, old(files[f]), files1[f]);
      LongerOf(old(|files[f]|), index, ClusterIndex(g, offset + |data|));
      hide Max;
      if r == XT_SUCCESS {
        RoomForFile(f);
        Sizes(f);
        InsideFile(g, offset + |data|, |files[f]|);
        InsideFile(g, offset + |data|, Room(f));
        AllWritten(f, old(disk), old(Fat()), old(files[f]), offset, data);
        AllBelow(g, old(disk), disk, files[f], offset, data, FilePos(g, Room(f), 0));
      } else {
        CutBelow(g, old(disk), disk, files[f], offset, data, FilePos(g, Room(f), 0));
      }
    }

    lemma BytesAre(f: nat)
      requires Valid() && f in files
      ensures ChainOnDisk(g, disk, files[f]) && FileBytes(f) == Content(g, disk, files[f])
    {
      hide Content;
    }

    lemma StartWriting(f: nat, before: seq<Byte>, offset: nat, data: seq<Byte>)
      requires Valid() && f in files && DataKept(g, before, disk) && offset <= |FileBytes(f)|
      ensures WroteFirst(g, before, disk, files[f], offset, data, 0)
    {
      hide Content, Wrote, DataKept, HasData;
      assert |disk| == |before| by { SameLength(g, before, disk); }
      assert ChainOnDisk(g, before, files[f]);
      SizeOfContent(g, before, disk, files[f]);
      assert data[..0] == [];
      WroteNothing(g, before, disk, files[f], offset);
    }

    lemma AllWritten(f: nat, before: seq<Byte>, fat: seq<nat>, chain: seq<nat>, offset: nat, data: seq<Byte>)
      requires Valid() && f in files && Grew(fat, Fat(), chain, files[f])
      requires WroteFirst(g, before, disk, files[f], offset, data, |data|)
      ensures ChainOnDisk(g, before, chain)
      ensures Stored(Content(g, before, chain), FileBytes(f), offset, data, |data|)
    {
      assert data[..|data|] == data;
      hide Content, Wrote, Stored, ChainOnDisk;
      WroteStored(g, before, disk, chain, files[f], offset, data);
    }

    /** All of the file's data starts below 4 GiB. */
    ghost predicate Below4G(f: nat)
      requires f in files
      reads this
    {
      forall q :: 0 <= q < |files[f]| && files[f][q] >= 2 ==> ClusterStart(g, files[f][q]) < TWO_32
    }

    /** The file as the read path sees it. */
    ghost function SeenBytes(f: nat): seq<Byte>
      requires Valid() && f in files
      reads this
    {
      Seen(g, disk, files[f])
    }

    lemma SeenSize(f: nat)
      requires Valid() && f in files
      ensures |SeenBytes(f)| == |FileBytes(f)|
    {
      Sizes(f);
    }

    /** Reading sees a file's bytes if its data starts below 4 GiB. */
    lemma SeenIsContent(f: nat)
      requires Valid() && f in files && Below4G(f)
      ensures SeenBytes(f) == FileBytes(f)
    {
      hide Content, FilesOk, Fat1, Fat2, FilePos, ClusterPos, ClusterIndex, ClusterStart, HasData;
      var chain, seen := files[f], SeenBytes(f);
      assert g.Ok() && ChainOnDisk(g, disk, chain);
      assert |FileBytes(f)| == FilePos(g, |chain|, 0) by { Sizes(f); }
      forall k | 0 <= k < |seen| ensures seen[k] == FileBytes(f)[k] {
        SeenPlace(g, disk, chain, k);
        ReadsWhereWritten(g, chain[ClusterIndex(g, k)]);
        InContent(g, disk, chain, k);
      }
    }

    /** One turn of the read loop, lines 263 to 271: the rest of the cluster, or what is still wanted. */
    method ReadChunk(current: nat, offset: nat, count: nat, have: nat, ghost f: nat) returns (block: seq<Byte>)
      requires Valid() && f in files && g.clusterSize > 0 && have < count
      requires ClusterIndex(g, offset + have) < |files[f]| && files[f][ClusterIndex(g, offset + have)] == current
      ensures |block| == Min(g.clusterSize - ClusterPos(g, offset + have), count - have) > 0
      ensures offset + have + |block| <= |SeenBytes(f)|
      ensures block == SeenBytes(f)[offset + have..offset + have + |block|]
    {
      hide Content, FilesOk, Fat1, Fat2, ClusterPos, ClusterIndex, ClusterStart, Seen;
      var pos := ClusterPos(g, offset + have);
      Position(g, offset + have);
      var toRead := g.clusterSize - pos;
      if toRead > count - have { toRead := count - have; }
      SeenBlock(g, disk, files[f], offset + have, toRead);
      var physOffset := ReadStart(g, current) + pos;
      block := disk[physOffset..physOffset + toRead];
    }

    /** The cluster walk for reading: it ends early at the end of the file. */
    method SeekForRead(f: nat, clusterIndex: nat) returns (ok: bool, current: nat)
      requires Valid() && f in files
      ensures ok <==> clusterIndex < |files[f]|
      ensures ok ==> files[f][clusterIndex] == current
    {
      hide FilesOk, FilesBacked, Fat1, Fat2;
      FirstCluster(Fat1(g, disk), files, f);
      current := f;
      var i := 0;
      while i < clusterIndex
        invariant 0 <= i <= clusterIndex && i < |files[f]| && files[f][i] == current
      {
        ChainStep(Fat1(g, disk), files, f, i);
        var next := GetNextCluster(current);
        if next == EOC { return false, current; }
        current := next;
        i := i + 1;
      }
      ok := true;
    }

    /** The step after a full cluster, lines 276 to 280. */
    method AfterCluster(current: nat, ghost f: nat, ghost q: nat) returns (next: nat)
      requires Valid() && f in files && q < |files[f]| && files[f][q] == current
      ensures next == if q + 1 < |files[f]| then files[f][q + 1] else EOC
      ensures next != EOC <==> q + 1 < |files[f]|
    {
      hide FilesOk, FilesBacked, Fat1, Fat2;
      ChainStep(Fat1(g, disk), files, f, q);
      next := GetNextCluster(current);
    }

    /** The data path of vfatReadFile: it delivers the bytes from offset on as they are seen, as far as there are
        any, and these are the file's if its data starts below 4 GiB. */
    method ReadFile(f: nat, offset: nat, count: nat) returns (r: XTResult, data: seq<Byte>)
      requires Valid() && f in files && g.clusterSize > 0 && ClusterIndex(g, offset) < TWO_32
      ensures data == Available(SeenBytes(f), offset, count)
      ensures Below4G(f) ==> data == Available(FileBytes(f), offset, count)
      ensures r == XT_SUCCESS <==> offset < |FileBytes(f)| && offset + count <= |FileBytes(f)|
      ensures r != XT_SUCCESS ==> r == XT_END_OF_FILE
    {
      hide Valid, FileBytes, SeenBytes, FilePos, ClusterPos, ClusterIndex;
      data := [];
      Sizes(f);
      SeenSize(f);
      if Below4G(f) { SeenIsContent(f); }
      var ok, current := SeekForRead(f, ClusterIndex(g, offset) % TWO_32);
      if !ok {
        BeyondFile(g, offset, |files[f]|);
        return XT_END_OF_FILE, [];
      }
      InsideFile(g, offset, |files[f]|);
      while |data| < count
        invariant |data| <= count && offset < |SeenBytes(f)| && offset + |data| <= |SeenBytes(f)|
        invariant data == SeenBytes(f)[offset..offset + |data|]
        invariant |data| < count ==> ClusterIndex(g, offset + |data|) < |files[f]|
        invariant |data| < count ==> files[f][ClusterIndex(g, offset + |data|)] == current
        decreases count - |data|
      {
        ghost var have := |data|;
        var pos := ClusterPos(g, offset + |data|);
        var block := ReadChunk(current, offset, count, |data|, f);
        NextPosition(g, offset + have, |block|);
        Joined(SeenBytes(f), offset, have, |block|);
        data := data + block;
        assert offset + |data| == offset + have + |block|;
        if pos + |block| == g.clusterSize {
          var next := AfterCluster(current, f, ClusterIndex(g, offset + have));
          if next == EOC {
            EndOfFile(g, offset + have, |block|, |files[f]|);
            break;
          }
          current := next;
        }
      }
      r := if |data| == count then XT_SUCCESS else XT_END_OF_FILE;
    }

    /** What was written is read back if it lies below 4 GiB. */
    method WriteThenRead(f: nat, data: seq<Byte>, offset: nat) returns (r: XTResult, back: seq<Byte>)
      requires Valid() && f in files && g.clusterSize > 0 && ClusterIndex(g, offset) < TWO_32
      requires ClusterIndex(g, offset + |data|) < Room(f) || AllBacked()
      modifies this
      ensures Valid() && OthersKept(f)
      ensures r == XT_SUCCESS && Below4G(f) ==> back == data
      ensures r == XT_SUCCESS ==> back == Available(SeenBytes(f), offset, |data|)
      ensures AllBelow4G(g, |disk|) ==> Below4G(f)
      ensures r == XT_SUCCESS <==> ClusterIndex(g, offset + |data|) < old(Room(f))
      ensures r != XT_SUCCESS ==> r == XT_END_OF_FILE && NoFreeCluster(g, disk)
    {
      hide Valid, FileBytes, SeenBytes, Below4G, ClusterIndex, Room, NoFreeCluster, AllBelow4G;
      var written;
      r, written := WriteFile(f, data, offset);
      back := [];
      if r == XT_SUCCESS {
        r, back := ReadFile(f, offset, |data|);
      }
      if AllBelow4G(g, |disk|) { ClustersBelow(f); }
    }

    lemma ClustersBelow(f: nat)
      requires Valid() && f in files && AllBelow4G(g, |disk|)
      ensures Below4G(f)
    {
      hide ClusterStart, HasData;
      assert ChainOnDisk(g, disk, files[f]);
    }

    /** The cluster reservation of vfatCreateFile. It tests neither for a full volume nor for data behind the entry. */
    method ReserveCluster() returns (firstCluster: nat)
      requires Valid()
      modifies this
      ensures |disk| == old(|disk|)
      ensures !old(NoFreeCluster(g, disk)) ==>
        && old(FirstFree(Fat1(g, disk), firstCluster)) && files == old(files)[firstCluster := [firstCluster]]
        && firstCluster !in old(files) && FatSound(g, disk, files) && SameContents(g, old(disk), disk, old(files), -1)
      ensures !old(NoFreeCluster(g, disk)) ==> (Valid() <==> old(SomeUsable(g, Fat1(g, disk), |disk|)))
      ensures old(NoFreeCluster(g, disk)) ==> firstCluster == EOC && files == old(files)
      ensures old(NoFreeCluster(g, disk)) ==> disk == Stray(g, Stray(g, old(disk), 0), g.fatSize)
      ensures old(NoFreeCluster(g, disk) && Lands(g, |disk|, files, 0) && Lands(g, |disk|, files, g.fatSize)) ==> Valid()
      ensures old(NoFreeCluster(g, disk)) && StrayAt(g, 0) + 4 > |disk| && StrayAt(g, g.fatSize) + 4 > |disk| ==>
        Valid() && disk == old(disk)
    {
      hide Content, FilesOk, FilesBacked, SomeUsable, ChainOnDisk, Fat1, Fat2, FilePos, Lands, StrayAt;
      firstCluster := FindFreeCluster();
      if firstCluster < g.Max() {
        BeginKeepsVolume(g, disk, files, firstCluster);
        var done := SetNextCluster(firstCluster, EOC);
        files := files[firstCluster := [firstCluster]];
      } else {
        if Lands(g, |disk|, files, 0) && Lands(g, |disk|, files, g.fatSize) {
          StrayLands(g, disk, files, 0);
          StrayLands(g, Stray(g, disk, 0), files, g.fatSize);
        }
        disk := Stray(g, disk, 0);
        disk := Stray(g, disk, g.fatSize);
      }
    }
  }

  /** All of the volume's data starts below 4 GiB. */
  ghost predicate AllBelow4G(g: Geometry, size: nat) {
    forall c :: HasData(g, c, size) ==> ClusterStart(g, c) < TWO_32
  }

  function Min(a: int, b: int): int { if a < b then a else b }

  function Max(a: int, b: int): int { if a < b then b else a }

  lemma LongerOf(a: nat, i: nat, j: nat)
    requires i <= j
    ensures Max(Max(a, i + 1), j + 1) == Max(a, j + 1)
  {}

  /** Where the read path looks for a cluster: a 32-bit sum of 32-bit values. */
  function ReadStart(g: Geometry, c: nat): nat
    requires c >= 2
  {
    ClusterStart(g, c) % TWO_32
  }

  /** Byte k of a file, where the read path looks for it. */
  function SeenAt(g: Geometry, disk: seq<Byte>, chain: seq<nat>, k: nat): Byte
    requires g.clusterSize > 0 && ChainOnDisk(g, disk, chain) && k < FilePos(g, |chain|, 0)
  {
    SeenPlace(g, disk, chain, k);
    disk[ReadStart(g, chain[ClusterIndex(g, k)]) + ClusterPos(g, k)]
  }

  function Seen(g: Geometry, disk: seq<Byte>, chain: seq<nat>): (b: seq<Byte>)
    requires g.clusterSize > 0 && ChainOnDisk(g, disk, chain)
    ensures |b| == FilePos(g, |chain|, 0) && forall k :: 0 <= k < |b| ==> b[k] == SeenAt(g, disk, chain, k)
  {
    seq(FilePos(g, |chain|, 0), k requires 0 <= k < FilePos(g, |chain|, 0) => SeenAt(g, disk, chain, k))
  }

  lemma SeenPlace(g: Geometry, disk: seq<Byte>, chain: seq<nat>, k: nat)
    requires g.clusterSize > 0 && ChainOnDisk(g, disk, chain) && k < FilePos(g, |chain|, 0)
    ensures ClusterIndex(g, k) < |chain| && chain[ClusterIndex(g, k)] >= 2 && ClusterPos(g, k) < g.clusterSize
    ensures ReadStart(g, chain[ClusterIndex(g, k)]) <= ClusterStart(g, chain[ClusterIndex(g, k)])
    ensures ReadStart(g, chain[ClusterIndex(g, k)]) + g.clusterSize <= |disk|
  {
    hide ClusterIndex, ClusterPos, ClusterStart, FilePos;
    if ClusterIndex(g, k) >= |chain| { BeyondFile(g, k, |chain|); }
    Position(g, k);
    InChainHasData(g, disk, chain, ClusterIndex(g, k));
    InData(g, chain[ClusterIndex(g, k)], |disk|, 0, g.clusterSize);
  }

  lemma InContent(g: Geometry, disk: seq<Byte>, chain: seq<nat>, k: nat)
    requires g.clusterSize > 0 && ChainOnDisk(g, disk, chain) && k < FilePos(g, |chain|, 0)
    ensures ClusterIndex(g, k) < |chain| && chain[ClusterIndex(g, k)] >= 2 && k < |Content(g, disk, chain)|
    ensures ClusterStart(g, chain[ClusterIndex(g, k)]) + ClusterPos(g, k) < |disk|
    ensures Content(g, disk, chain)[k] == disk[ClusterStart(g, chain[ClusterIndex(g, k)]) + ClusterPos(g, k)]
  {
    var q, at := ClusterIndex(g, k), ClusterPos(g, k);
    SeenPlace(g, disk, chain, k);
    Position(g, k);
    hide Content, ClusterIndex, ClusterPos, ClusterStart;
    ReadInChain(g, disk, chain, q, at, 1);
    OneByte(disk, ClusterStart(g, chain[q]) + at, Content(g, disk, chain), k);
  }

  lemma OneByte(a: seq<Byte>, i: nat, b: seq<Byte>, j: nat)
    requires i + 1 <= |a| && j + 1 <= |b| && a[i..i + 1] == b[j..j + 1]
    ensures a[i] == b[j]
  {
    assert a[i..i + 1][0] == b[j..j + 1][0];
  }

  /** Bytes of a file that lie in one cluster are read in one piece. */
  lemma SeenBlock(g: Geometry, disk: seq<Byte>, chain: seq<nat>, o: nat, n: nat)
    requires g.clusterSize > 0 && ChainOnDisk(g, disk, chain) && n > 0
    requires ClusterIndex(g, o) < |chain| && ClusterPos(g, o) + n <= g.clusterSize
    ensures chain[ClusterIndex(g, o)] >= 2 && o + n <= |Seen(g, disk, chain)|
    ensures ReadStart(g, chain[ClusterIndex(g, o)]) + ClusterPos(g, o) + n <= |disk|
    ensures var start := ReadStart(g, chain[ClusterIndex(g, o)]) + ClusterPos(g, o);
      disk[start..start + n] == Seen(g, disk, chain)[o..o + n]
  {
    hide ClusterIndex, ClusterPos, ClusterStart, Seen, FilePos, ReadStart, HasData;
    InsideFile(g, o, |chain|);
    SeenPlace(g, disk, chain, o);
    BlockInside(g, o, n, |chain|);
    var start := ReadStart(g, chain[ClusterIndex(g, o)]) + ClusterPos(g, o);
    var block, seen := disk[start..start + n], Seen(g, disk, chain);
    forall k | 0 <= k < n ensures block[k] == seen[o..o + n][k] {
      NextPosition(g, o, k);
      assert seen[o + k] == SeenAt(g, disk, chain, o + k);
    }
  }

  lemma BlockInside(g: Geometry, o: nat, n: nat, clusters: nat)
    requires g.clusterSize > 0 && ClusterIndex(g, o) < clusters && ClusterPos(g, o) + n <= g.clusterSize
    ensures o + n <= FilePos(g, clusters, 0)
  {
    PrefixBound(ClusterIndex(g, o), clusters, g.clusterSize);
    Position(g, o);
  }

  /** Reading looks where writing wrote exactly for clusters whose data starts below 4 GiB. */
  lemma ReadsWhereWritten(g: Geometry, c: nat)
    requires c >= 2
    ensures ReadStart(g, c) == ClusterStart(g, c) <==> ClusterStart(g, c) < TWO_32
  {
    hide ClusterStart;
  }

  /** For instance, the cluster 4 GiB into the data of a volume is read from where the first one lies. */
  lemma ReadsElsewhere()
    ensures var g := Geometry(0x1000, 0x10_0000, 0x40_0000, 0x1_0000); ReadStart(g, 0x1_0002) == ClusterStart(g, 2)
  {}

  /** The bytes a read of `count` bytes at `offset` can deliver. */
  function Available(bytes: seq<Byte>, offset: nat, count: nat): seq<Byte> {
    if offset >= |bytes| then [] else bytes[offset..Min(offset + count, |bytes|)]
  }

  // ----- Creating a file on a full volume -----

  /** Where entry number EOC of a FAT copy would be, by 32-bit arithmetic. */
  function StrayAt(g: Geometry, copy: nat): nat {
    (g.fatOffset + copy + 4 * EOC) % TWO_32
  }

  /** The end-of-chain mark written there; a device ignores writes past its end. */
  function Stray(g: Geometry, disk: seq<Byte>, copy: nat): (d: seq<Byte>)
    ensures |d| == |disk|
  {
    if StrayAt(g, copy) + 4 <= |disk| then Splice(disk, StrayAt(g, copy), Le32(EOC)) else disk
  }

  const MARK: seq<Byte> := [0xff, 0xff, 0xff, 0x0f]

  /** The stray mark lands in a cluster of a file. */
  ghost predicate Hits(g: Geometry, files: map<nat, seq<nat>>, copy: nat, f: nat, q: nat, at: nat) {
    && f in files && q < |files[f]| && files[f][q] >= 2
    && StrayAt(g, copy) == ClusterStart(g, files[f][q]) + at && at + 4 <= g.clusterSize
  }

  /** The stray mark lands past the device or in a file. */
  ghost predicate Lands(g: Geometry, size: nat, files: map<nat, seq<nat>>, copy: nat) {
    StrayAt(g, copy) + 4 > size || exists f, q, at :: Hits(g, files, copy, f, q, at)
  }

  lemma MarkIs()
    ensures Le32(EOC) == MARK
  {}

  /** A stray mark in a file overwrites four bytes of this file, and the volume stays sound. */
  lemma StrayInFile(g: Geometry, disk: seq<Byte>, files: map<nat, seq<nat>>, copy: nat, f: nat, q: nat, at: nat)
    requires VolumeOk(g, disk, files) && Hits(g, files, copy, f, q, at)
    ensures VolumeOk(g, Stray(g, disk, copy), files)
    ensures SplicedAt(g, disk, Stray(g, disk, copy), files[f], q, at, MARK)
    ensures SameContents(g, disk, Stray(g, disk, copy), files, f)
  {
    hide Content, FilesOk, ChainOnDisk, Splice, Fat1, Fat2, FilePos, ClusterStart, SplicedAt, Le32;
    MarkIs();
    FileClusters(g, disk, Fat1(g, disk), files, f, q);
    InData(g, files[f][q], |disk|, at, 4);
    BlockKeepsVolume(g, disk, files, f, q, at, MARK);
  }

  lemma StrayLands(g: Geometry, disk: seq<Byte>, files: map<nat, seq<nat>>, copy: nat)
    requires VolumeOk(g, disk, files) && Lands(g, |disk|, files, copy)
    ensures VolumeOk(g, Stray(g, disk, copy), files)
  {
    hide VolumeOk, Hits, Splice, StrayAt;
    if StrayAt(g, copy) + 4 <= |disk| {
      var f, q, at :| Hits(g, files, copy, f, q, at);
      StrayInFile(g, disk, files, copy, f, q, at);
    }
  }

  /** A volume of 1.06 GiB in clusters of 64 KiB, each of which is a file of zeros. */
  const FULL: Geometry := Geometry(0x4000, 0x1_1000, 0x2_6000, 0x1_0000)

  const FULL_SIZE: nat := 0x4400_6000

  function FullDisk(): (disk: seq<Byte>)
    ensures |disk| == FULL_SIZE
    ensures forall i :: 0 <= i < FULL_SIZE ==> disk[i] == if 0x4000 <= i < 0x2_6000 then MARK[i % 4] else 0
  {
    seq(FULL_SIZE, i requires 0 <= i < FULL_SIZE => if 0x4000 <= i < 0x2_6000 then MARK[i % 4] else 0)
  }

  function FullFiles(): map<nat, seq<nat>> {
    map c: nat | 2 <= c < 0x4400 :: [c]
  }

  lemma FullEntry(at: nat)
    requires at % 4 == 0 && 0x4000 <= at && at + 4 <= 0x2_6000
    ensures Word32(FullDisk(), at) == EOC
  {
    hide FullDisk;
    assert at % 4 == 0 && (at + 1) % 4 == 1 && (at + 2) % 4 == 2 && (at + 3) % 4 == 3;
  }

  lemma FullFat()
    ensures |Fat1(FULL, FullDisk())| == |Fat2(FULL, FullDisk())| == 0x4400
    ensures forall i :: 0 <= i < 0x4400 ==> Fat1(FULL, FullDisk())[i] == EOC && Fat2(FULL, FullDisk())[i] == EOC
  {
    hide FullDisk, Word32;
    forall i | 0 <= i < 0x4400 ensures Fat1(FULL, FullDisk())[i] == EOC && Fat2(FULL, FullDisk())[i] == EOC {
      FullEntry(0x4000 + 4 * i);
      FullEntry(0x1_5000 + 4 * i);
    }
  }

  lemma FullVolume()
    ensures VolumeOk(FULL, FullDisk(), FullFiles()) && NoFreeCluster(FULL, FullDisk())
  {
    FullFat();
    hide FullDisk, Fat1, Fat2;
    var fat := Fat1(FULL, FullDisk());
    assert fat == Fat2(FULL, FullDisk());
    assert FilesOk(fat, FullFiles());
    assert FilesBacked(FULL, FullDisk(), FullFiles());
  }

  lemma FullHits()
    ensures 0x3fff in FullFiles() && FullFiles()[0x3fff] == [0x3fff]
    ensures Hits(FULL, FullFiles(), 0, 0x3fff, 0, 0xdffc) && Hits(FULL, FullFiles(), FULL.fatSize, 0x4000, 0, 0xeffc)
    ensures HasData(FULL, 0x3fff, FULL_SIZE) && ClusterStart(FULL, 0x3fff) == 0x3fff_6000
  {}

  lemma ZeroData(i: nat)
    requires 0x2_6000 <= i < FULL_SIZE
    ensures FullDisk()[i] == 0
  {}

  /** The file of one cluster has the bytes of that cluster. */
  lemma OneCluster(g: Geometry, disk: seq<Byte>, c: nat, k: nat)
    requires HasData(g, c, |disk|) && k < g.clusterSize
    ensures ChainOnDisk(g, disk, [c]) && |Content(g, disk, [c])| == g.clusterSize
    ensures Content(g, disk, [c])[k] == disk[ClusterStart(g, c) + k]
  {
    assert [c][..0] == [];
    assert Content(g, disk, [c]) == [] + ClusterBytes(g, disk, c);
  }

  /** ... after a file has been created on it. */
  function HarmedDisk(): seq<Byte> { Stray(FULL, Stray(FULL, FullDisk(), 0), FULL.fatSize) }

  lemma FullVolumeStays()
    ensures VolumeOk(FULL, HarmedDisk(), FullFiles()) && ChainOnDisk(FULL, FullDisk(), [0x3fff])
    ensures SplicedAt(FULL, FullDisk(), HarmedDisk(), [0x3fff], 0, 0xdffc, MARK)
  {
    FullVolume();
    FullHits();
    var disk, files := FullDisk(), FullFiles();
    hide FullDisk, FullFiles, VolumeOk, Hits, Stray, Content, ChainOnDisk;
    StrayInFile(FULL, disk, files, 0, 0x3fff, 0, 0xdffc);
    StrayInFile(FULL, Stray(FULL, disk, 0), files, FULL.fatSize, 0x4000, 0, 0xeffc);
  }

  /** Creating a file on it overwrites four zeros of an existing file. */
  lemma FullVolumeHarmed(k: nat)
    requires 0xdffc <= k < 0xe000
    ensures VolumeOk(FULL, FullDisk(), FullFiles()) && NoFreeCluster(FULL, FullDisk())
    ensures 0x3fff in FullFiles() && FullFiles()[0x3fff] == [0x3fff]
    ensures ChainOnDisk(FULL, FullDisk(), [0x3fff]) && ChainOnDisk(FULL, HarmedDisk(), [0x3fff])
    ensures |Content(FULL, FullDisk(), [0x3fff])| == |Content(FULL, HarmedDisk(), [0x3fff])| == 0x1_0000
    ensures Content(FULL, FullDisk(), [0x3fff])[k] == 0 && Content(FULL, HarmedDisk(), [0x3fff])[k] == MARK[k - 0xdffc]
  {
    FullVolume();
    FullHits();
    FullVolumeStays();
    hide FullDisk, FullFiles, VolumeOk, NoFreeCluster, Hits, HarmedDisk, Content, ChainOnDisk, HasData, ClusterStart;
    ZeroData(0x3fff_6000 + k);
    OneCluster(FULL, FullDisk(), 0x3fff, k);
  }

  lemma Joined(bytes: seq<Byte>, offset: nat, have: nat, n: nat)
    requires offset + have + n <= |bytes|
    ensures bytes[offset..offset + have] + bytes[offset + have..offset + have + n] == bytes[offset..offset + (have + n)]
  {}

  lemma BeyondFile(g: Geometry, o: nat, n: nat)
    requires g.clusterSize > 0 && ClusterIndex(g, o) >= n
    ensures o >= FilePos(g, n, 0)
  {
    Position(g, o);
    if ClusterIndex(g, o) > n { PrefixBound(n, ClusterIndex(g, o), g.clusterSize); }
  }

  lemma IndexGrows(g: Geometry, o: nat, n: nat)
    requires g.clusterSize > 0
    ensures ClusterIndex(g, o) <= ClusterIndex(g, o + n)
  {
    Position(g, o);
    Position(g, o + n);
    if ClusterIndex(g, o) > ClusterIndex(g, o + n) {
      PrefixBound(ClusterIndex(g, o + n), ClusterIndex(g, o), g.clusterSize);
    }
  }

  lemma EndOfFile(g: Geometry, o: nat, n: nat, clusters: nat)
    requires g.clusterSize > 0 && ClusterIndex(g, o) == clusters - 1 && ClusterPos(g, o) + n == g.clusterSize
    ensures o + n == FilePos(g, clusters, 0)
  {
    Position(g, o);
    assert FilePos(g, clusters, 0) == FilePos(g, clusters - 1, 0) + g.clusterSize;
  }

  ghost predicate KeptOutside(before: seq<Byte>, after: seq<Byte>, offset: nat, n: nat) {
    |before| <= |after| && forall k :: 0 <= k < |before| && !(offset <= k < offset + n) ==> after[k] == before[k]
  }

  /** The first n bytes of the data are in place and nothing else of the file has changed. */
  ghost predicate Stored(before: seq<Byte>, now: seq<Byte>, offset: nat, data: seq<Byte>, n: nat)
    requires n <= |data|
  {
    && offset + n <= |now| && now[offset..offset + n] == data[..n]
    && KeptOutside(before, now, offset, n)
  }

  lemma InData(g: Geometry, c: nat, size: nat, at: nat, n: nat)
    requires HasData(g, c, size) && at + n <= g.clusterSize
    ensures c >= 2 && ClusterStart(g, c) + at + n <= size
  {}

  lemma FirstCluster(fat: seq<nat>, files: map<nat, seq<nat>>, f: nat)
    requires FilesOk(fat, files) && f in files
    ensures |files[f]| > 0 && files[f][0] == f
  {
    assert IsChain(fat, files[f]);
  }
}
