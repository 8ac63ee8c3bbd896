/**
 Cluster chains: a file's clusters linked through the FAT, the ownership map that says
 which chain starts where, and what allocating a cluster or writing a sector does to them.
 */
module FatChains {
  import opened Common
  import opened Bytes
  import opened FatLayout

  /** The table links the cluster with index `i` to the next one. */
  ghost predicate Linked(fat: seq<nat>, chain: seq<nat>, i: nat)
    requires i + 1 < |chain| && chain[i] < |fat|
  {
    fat[chain[i]] == chain[i + 1]
  }

  /** `chain` lists clusters linked by the table, the last one marked end-of-chain. */
  ghost predicate IsChain(fat: seq<nat>, chain: seq<nat>) {
    && |chain| > 0
    && (forall i :: 0 <= i < |chain| ==> CLUSTER_MIN <= chain[i] < |fat|)
    && Distinct(chain)
    && (forall i: nat :: i + 1 < |chain| ==> Linked(fat, chain, i))
    && fat[chain[|chain| - 1]] >= CLUSTER_EOC
  }

  ghost predicate Disjoint(a: seq<nat>, b: seq<nat>) {
    forall i, j :: 0 <= i < |a| && 0 <= j < |b| ==> a[i] != b[j]
  }

  type Chains = map<nat, seq<nat>>

  /** Every start cluster heads a chain of its own, and no two chains share a cluster. */
  ghost predicate Owned(fat: seq<nat>, chains: Chains) {
    && (forall s :: s in chains ==> IsChain(fat, chains[s]) && chains[s][0] == s)
    && (forall s, t :: s in chains && t in chains && s != t ==> Disjoint(chains[s], chains[t]))
  }

  lemma LastOf(fat: seq<nat>, chains: Chains, start: nat)
    requires Owned(fat, chains) && start in chains
    ensures |chains[start]| > 0 && CLUSTER_MIN <= chains[start][|chains[start]| - 1] < |fat|
  {
  }

  ghost function FreeClusters(fat: seq<nat>): set<nat> {
    set c: nat | CLUSTER_MIN <= c < |fat| && fat[c] == CLUSTER_FREE
  }

  /** The place of a cluster in its chain. */
  ghost function IndexOf(chain: seq<nat>, cluster: nat): (i: nat)
    requires cluster in chain
    ensures i < |chain| && chain[i] == cluster
  {
    var i :| 0 <= i < |chain| && chain[i] == cluster; i
  }

  lemma IndexOfIs(chain: seq<nat>, i: nat)
    requires Distinct(chain) && i < |chain|
    ensures IndexOf(chain, chain[i]) == i
  {
    SameIndex(chain, i, IndexOf(chain, chain[i]));
  }

  /** A chain ends exactly where the driver stops following it. */
  lemma NextCluster(fat: seq<nat>, chain: seq<nat>, i: nat)
    requires IsChain(fat, chain) && i < |chain| && |fat| <= CLUSTER_EOC
    ensures fat[chain[i]] < CLUSTER_MIN || fat[chain[i]] >= CLUSTER_EOC <==> i == |chain| - 1
    ensures i < |chain| - 1 ==> fat[chain[i]] == chain[i + 1]
  {
    if i < |chain| - 1 {
      assert Linked(fat, chain, i);
      assert CLUSTER_MIN <= chain[i + 1] < |fat|;
    }
  }

  /** A free cluster lies on no chain. */
  lemma FreeIsUnowned(fat: seq<nat>, chains: Chains, c: nat)
    requires Owned(fat, chains) && c in FreeClusters(fat)
    ensures c !in chains
    ensures forall s :: s in chains ==> c !in chains[s]
  {
    forall s, i | s in chains && 0 <= i < |chains[s]|
      ensures chains[s][i] != c
    {
      if i < |chains[s]| - 1 {
        assert Linked(fat, chains[s], i);
      }
    }
  }

  /** The table after `fat16_allocate_cluster` has taken `c` with nothing to link it to. */
  function TakenAlone(fat: seq<nat>, c: nat): seq<nat>
    requires c < |fat|
  {
    fat[c := CLUSTER_EOC]
  }

  /** The table after it has taken `c` and linked it behind `previous`. */
  function TakenAfter(fat: seq<nat>, c: nat, previous: nat): seq<nat>
    requires c < |fat| && previous < |fat|
  {
    fat[c := CLUSTER_EOC][previous := c]
  }

  /** A chain on which the table did not change stays a chain. */
  lemma ChainKept(fat: seq<nat>, fat': seq<nat>, chain: seq<nat>)
    requires IsChain(fat, chain) && |fat'| == |fat|
    requires forall i :: 0 <= i < |chain| ==> fat'[chain[i]] == fat[chain[i]]
    ensures IsChain(fat', chain)
  {
    forall i: nat | i + 1 < |chain|
      ensures Linked(fat', chain, i)
    {
      assert Linked(fat, chain, i);
    }
  }

  lemma StartChain(fat: seq<nat>, chains: Chains, c: nat)
    requires Owned(fat, chains) && c in FreeClusters(fat)
    ensures c !in chains
    ensures Owned(TakenAlone(fat, c), chains[c := [c]])
    ensures FreeClusters(TakenAlone(fat, c)) == FreeClusters(fat) - {c}
  {
    FreeIsUnowned(fat, chains, c);
    var fat' := TakenAlone(fat, c);
    forall s | s in chains
      ensures IsChain(fat', chains[s]) && Disjoint(chains[s], [c]) && Disjoint([c], chains[s])
    {
      assert c !in chains[s];
      ChainKept(fat, fat', chains[s]);
    }
  }

  lemma DistinctGrows(chain: seq<nat>, c: nat)
    requires Distinct(chain) && c !in chain
    ensures Distinct(chain + [c])
  {
    forall i: nat, j: nat | i < j < |chain + [c]|
      ensures Differ(chain + [c], i, j)
    {
      if j < |chain| {
        assert Differ(chain, i, j);
      }
    }
  }

  lemma LinkedChain(fat: seq<nat>, chain: seq<nat>, c: nat)
    requires IsChain(fat, chain) && CLUSTER_MIN <= c < |fat| && c !in chain
    ensures IsChain(TakenAfter(fat, c, chain[|chain| - 1]), chain + [c])
  {
    var last := |chain| - 1;
    var fat' := TakenAfter(fat, c, chain[last]);
    var chain' := chain + [c];
    DistinctGrows(chain, c);
    forall i: nat | i + 1 < |chain'|
      ensures Linked(fat', chain', i)
    {
      assert chain'[i] == chain[i];
      if i < last {
        assert Linked(fat, chain, i) && Differ(chain, i, last);
      }
    }
  }

  lemma ExtendChain(fat: seq<nat>, chains: Chains, start: nat, c: nat)
    requires Owned(fat, chains) && c in FreeClusters(fat) && start in chains
    ensures c !in chains[start]
    ensures Owned(TakenAfter(fat, c, chains[start][|chains[start]| - 1]), chains[start := chains[start] + [c]])
    ensures FreeClusters(TakenAfter(fat, c, chains[start][|chains[start]| - 1])) == FreeClusters(fat) - {c}
  {
    FreeIsUnowned(fat, chains, c);
    var chain := chains[start];
    var last := chain[|chain| - 1];
    var fat' := TakenAfter(fat, c, last);
    LinkedChain(fat, chain, c);
    forall s | s in chains && s != start
      ensures IsChain(fat', chains[s]) && Disjoint(chains[s], chain + [c]) && Disjoint(chain + [c], chains[s])
    {
      assert c !in chains[s];
      assert Disjoint(chains[s], chain) && Disjoint(chain, chains[s]);
      assert last !in chains[s];
      ChainKept(fat, fat', chains[s]);
    }
  }

  // ---- what a write does to the data clusters ----

  lemma SectorBefore(p: nat, sectors: nat)
    ensures 512 * sectors <= p <==> sectors <= p / 512
  {
  }

  lemma {:induction false} SameCluster(g: Geometry, p: nat, q: nat)
    requires g.Valid() && p / 512 == q / 512
    ensures ClusterIndex(g, p) == ClusterIndex(g, q)
  {
    var i := ClusterIndex(g, p);
    SpanIsSectors(g, i);
    SpanIsSectors(g, i + 1);
    SectorBefore(q, g.SectorSpan(i));
    SectorBefore(q, g.SectorSpan(i + 1));
    SectorBefore(p, g.SectorSpan(i));
    SectorBefore(p, g.SectorSpan(i + 1));
    hide Geometry.Valid;
    ClusterIndexIs(g, q, i);
  }

  lemma SameSector(g: Geometry, chain: seq<nat>, p: nat, q: nat)
    requires g.Valid() && InVolume(g, chain) && Distinct(chain)
    requires p < Capacity(g, chain) && q < Capacity(g, chain)
    ensures FileLba(g, chain, p) == FileLba(g, chain, q) <==> p / 512 == q / 512
  {
    ClusterIndexInRange(g, chain, p);
    ClusterIndexInRange(g, chain, q);
    ByteInSector(g, p);
    ByteInSector(g, q);
    if p / 512 == q / 512 {
      SameCluster(g, p, q);
    }
    if FileLba(g, chain, p) == FileLba(g, chain, q) {
      SectorLbaInjective(g, chain, ClusterIndex(g, p), SectorInCluster(g, p), chain, ClusterIndex(g, q),
                         SectorInCluster(g, q));
      SameIndex(chain, ClusterIndex(g, p), ClusterIndex(g, q));
    }
  }

  /** The bytes of a chain depend only on the data region. */
  lemma DataRegionDecides(g: Geometry, disk: Disk, disk': Disk, chain: seq<nat>)
    requires g.Valid() && Fits(g, disk) && |disk'| == |disk| && InVolume(g, chain)
    requires forall l :: g.dataStart <= l < |disk| ==> disk'[l] == disk[l]
    ensures Fits(g, disk')
    ensures forall p :: 0 <= p < Capacity(g, chain) ==> ByteAt(g, disk', chain, p) == ByteAt(g, disk, chain, p)
  {
    forall p | 0 <= p < Capacity(g, chain)
      ensures ByteAt(g, disk', chain, p) == ByteAt(g, disk, chain, p)
    {
      FileLbaInRange(g, disk, chain, p);
    }
  }

  /** Clusters that are not on the chain hold what they held before. */
  ghost predicate OthersUntouched(g: Geometry, disk: Disk, disk': Disk, chain: seq<nat>)
    requires g.Valid() && Fits(g, disk) && |disk'| == |disk|
  {
    forall c: nat, k: nat :: CLUSTER_MIN <= c < g.Limit() && k < g.sectorsPerCluster && c !in chain ==>
      disk'[g.DataLba(c, k)] == disk[g.DataLba(c, k)]
  }

  /** The chain's bytes are the old ones with `data` laid over them from byte `q` on; no other cluster changed. */
  ghost predicate Written(g: Geometry, disk: Disk, disk': Disk, chain: seq<nat>, q: nat, data: seq<byte>) {
    && g.Valid() && Fits(g, disk) && |disk'| == |disk| && InVolume(g, chain) && Distinct(chain)
    && q + |data| <= Capacity(g, chain)
    && OthersUntouched(g, disk, disk', chain)
    && forall p :: 0 <= p < Capacity(g, chain) ==>
         ByteAt(g, disk', chain, p) == if q <= p < q + |data| then data[p - q] else ByteAt(g, disk, chain, p)
  }

  lemma NothingWritten(g: Geometry, disk: Disk, disk': Disk, chain: seq<nat>, q: nat)
    requires g.Valid() && Fits(g, disk) && |disk'| == |disk| && InVolume(g, chain) && Distinct(chain)
    requires q <= Capacity(g, chain)
    requires forall l :: g.dataStart <= l < |disk| ==> disk'[l] == disk[l]
    ensures Written(g, disk, disk', chain, q, [])
  {
    DataRegionDecides(g, disk, disk', chain);
    forall c: nat, k: nat | CLUSTER_MIN <= c < g.Limit() && k < g.sectorsPerCluster && c !in chain
      ensures g.dataStart <= g.DataLba(c, k) < |disk|
    {
    }
  }

  /** A sector write changes exactly the bytes it is meant to change. */
  lemma ChunkEffect(g: Geometry, disk: Disk, disk': Disk, chain: seq<nat>, x: nat, chunk: seq<byte>)
    requires g.Valid() && Fits(g, disk) && InVolume(g, chain) && Distinct(chain)
    requires x < Capacity(g, chain) && x % 512 + |chunk| <= 512
    requires var lba := FileLba(g, chain, x); lba < |disk| && disk' == disk[lba := Splice(disk[lba], x % 512, chunk)]
    ensures OthersUntouched(g, disk, disk', chain)
    ensures forall p :: 0 <= p < Capacity(g, chain) ==>
              ByteAt(g, disk', chain, p) == if x <= p < x + |chunk| then chunk[p - x] else ByteAt(g, disk, chain, p)
  {
    ClusterIndexInRange(g, chain, x);
    forall c: nat, k: nat | CLUSTER_MIN <= c < g.Limit() && k < g.sectorsPerCluster && c !in chain
      ensures disk'[g.DataLba(c, k)] == disk[g.DataLba(c, k)]
    {
      if g.DataLba(c, k) == FileLba(g, chain, x) {
        ClusterSectorInjective(g, c, k, chain[ClusterIndex(g, x)], SectorInCluster(g, x));
      }
    }
    forall p | 0 <= p < Capacity(g, chain)
      ensures ByteAt(g, disk', chain, p) == if x <= p < x + |chunk| then chunk[p - x] else ByteAt(g, disk, chain, p)
    {
      FileLbaInRange(g, disk, chain, p);
      SameSector(g, chain, p, x);
    }
  }

  lemma FitsByLength(g: Geometry, disk: Disk, disk': Disk)
    requires Fits(g, disk) && |disk'| == |disk|
    ensures Fits(g, disk')
  {
  }

  /** One sector more: what the body of the write loop does. */
  lemma ChunkWritten(g: Geometry, disk: Disk, disk1: Disk, disk2: Disk, chain: seq<nat>, q: nat, data: seq<byte>,
                     chunk: seq<byte>)
    requires Written(g, disk, disk1, chain, q, data)
    requires q + |data| < Capacity(g, chain)
    requires (q + |data|) % 512 + |chunk| <= 512 && q + |data| + |chunk| <= Capacity(g, chain)
    requires var lba := FileLba(g, chain, q + |data|);
             lba < |disk1| && disk2 == disk1[lba := Splice(disk1[lba], (q + |data|) % 512, chunk)]
    ensures Written(g, disk, disk2, chain, q, data + chunk)
  {
    hide OthersUntouched, InVolume, Distinct, FileLba, ByteAt, Capacity, Splice, Fits;
    FitsByLength(g, disk, disk1);
    ChunkEffect(g, disk1, disk2, chain, q + |data|, chunk);
    OthersTwice(g, disk, disk1, disk2, chain);
  }

  lemma OthersTwice(g: Geometry, disk: Disk, disk1: Disk, disk2: Disk, chain: seq<nat>)
    requires g.Valid() && Fits(g, disk) && Fits(g, disk1) && |disk2| == |disk1| == |disk|
    requires OthersUntouched(g, disk, disk1, chain) && OthersUntouched(g, disk1, disk2, chain)
    ensures OthersUntouched(g, disk, disk2, chain)
  {
  }

  lemma PrefixBytes(g: Geometry, disk: Disk, chain: seq<nat>, c: nat)
    requires g.Valid() && Fits(g, disk) && InVolume(g, chain) && CLUSTER_MIN <= c < g.Limit()
    ensures Capacity(g, chain + [c]) == Capacity(g, chain) + g.ClusterSize()
    ensures forall p :: 0 <= p < Capacity(g, chain) ==> ByteAt(g, disk, chain + [c], p) == ByteAt(g, disk, chain, p)
  {
    forall p | 0 <= p < Capacity(g, chain)
      ensures FileLba(g, chain + [c], p) == FileLba(g, chain, p)
    {
      ClusterIndexInRange(g, chain, p);
    }
  }

  lemma AppendedBytes(g: Geometry, disk: Disk, disk': Disk, chain: seq<nat>, c: nat, p: nat)
    requires g.Valid() && Fits(g, disk) && |disk'| == |disk| && InVolume(g, chain)
    requires CLUSTER_MIN <= c < g.Limit() && c !in chain && OthersUntouched(g, disk, disk', chain)
    requires Capacity(g, chain) <= p < Capacity(g, chain + [c])
    ensures ByteAt(g, disk', chain + [c], p) == ByteAt(g, disk, chain + [c], p)
  {
    ClusterIndexIs(g, p, |chain|);
  }

  /** Appending a cluster to the chain, with the FATs rewritten but no data sector touched. */
  lemma WrittenGrows(g: Geometry, disk: Disk, disk1: Disk, disk2: Disk, chain: seq<nat>, c: nat, q: nat,
                     data: seq<byte>)
    requires Written(g, disk, disk1, chain, q, data)
    requires CLUSTER_MIN <= c < g.Limit() && c !in chain
    requires |disk2| == |disk1| && forall l :: g.dataStart <= l < |disk| ==> disk2[l] == disk1[l]
    ensures Written(g, disk, disk2, chain + [c], q, data)
  {
    var chain' := chain + [c];
    DistinctGrows(chain, c);
    PrefixBytes(g, disk, chain, c);
    PrefixBytes(g, disk1, chain, c);
    forall p | 0 <= p < Capacity(g, chain')
      ensures ByteAt(g, disk1, chain', p) == if q <= p < q + |data| then data[p - q] else ByteAt(g, disk, chain', p)
    {
      if p >= Capacity(g, chain) {
        AppendedBytes(g, disk, disk1, chain, c, p);
      }
    }
    assert Written(g, disk, disk1, chain', q, data);
    FatsOnly(g, disk, disk1, disk2, chain', q, data);
  }

  lemma FatsOnly(g: Geometry, disk: Disk, disk1: Disk, disk2: Disk, chain: seq<nat>, q: nat, data: seq<byte>)
    requires Written(g, disk, disk1, chain, q, data)
    requires |disk2| == |disk1| && forall l :: g.dataStart <= l < |disk| ==> disk2[l] == disk1[l]
    ensures Written(g, disk, disk2, chain, q, data)
  {
    forall c: nat, k: nat | CLUSTER_MIN <= c < g.Limit() && k < g.sectorsPerCluster && c !in chain
      ensures disk2[g.DataLba(c, k)] == disk[g.DataLba(c, k)]
    {
    }
    DataRegionDecides(g, disk1, disk2, chain);
  }

  /** The same, for a change of the FATs before the write. */
  lemma FatsOnlyBefore(g: Geometry, disk: Disk, disk1: Disk, disk2: Disk, chain: seq<nat>, q: nat, data: seq<byte>)
    requires Fits(g, disk) && Written(g, disk1, disk2, chain, q, data)
    requires |disk1| == |disk| && forall l :: g.dataStart <= l < |disk| ==> disk1[l] == disk[l]
    ensures Written(g, disk, disk2, chain, q, data)
  {
    forall c: nat, k: nat | CLUSTER_MIN <= c < g.Limit() && k < g.sectorsPerCluster && c !in chain
      ensures disk2[g.DataLba(c, k)] == disk[g.DataLba(c, k)]
    {
    }
    DataRegionDecides(g, disk, disk1, chain);
  }

  // ---- the driver's position arithmetic ----

  /** The position and the cursor may be whole clusters apart, but agree on the offset in the cluster. */
  lemma OffsetsAdvance(g: Geometry, position: nat, x: nat, step: nat)
    requires g.Valid() && ClusterOffset(g, position) == ClusterOffset(g, x)
    requires ClusterOffset(g, x) + step <= g.ClusterSize()
    ensures ClusterOffset(g, position + step) == ClusterOffset(g, x + step)
  {
    OffsetAdvances(g, position, step);
    OffsetAdvances(g, x, step);
  }

  lemma OffsetAdvances(g: Geometry, p: nat, step: nat)
    requires g.Valid() && ClusterOffset(g, p) + step <= g.ClusterSize()
    ensures ClusterOffset(g, p + step) == if ClusterOffset(g, p) + step == g.ClusterSize() then 0
              else ClusterOffset(g, p) + step
  {
    var i := ClusterIndex(g, p);
    if ClusterOffset(g, p) + step == g.ClusterSize() {
      assert g.Span(i + 1 + 1) == g.Span(i + 1) + g.ClusterSize();
      ClusterIndexIs(g, p + step, i + 1);
    } else {
      ClusterIndexIs(g, p + step, i);
    }
  }

  /** A chunk that stays inside its sector reaches the end of the cluster only from the last sector. */
  lemma ChunkEnd(g: Geometry, offset: nat, chunk: nat)
    requires g.Valid() && offset < g.ClusterSize() && chunk <= 512 - offset % 512
    ensures offset / 512 < g.sectorsPerCluster
    ensures offset + chunk <= g.ClusterSize()
    ensures offset + chunk == g.ClusterSize() <==>
              offset / 512 == g.sectorsPerCluster - 1 && offset % 512 + chunk == 512
  {
  }

  /** A write through one chain leaves every byte of a disjoint chain alone. */
  lemma WriteIsolation(g: Geometry, disk: Disk, disk': Disk, chain: seq<nat>, other: seq<nat>)
    requires g.Valid() && Fits(g, disk) && |disk'| == |disk| && OthersUntouched(g, disk, disk', chain)
    requires InVolume(g, other) && Disjoint(chain, other)
    ensures forall p :: 0 <= p < Capacity(g, other) ==> ByteAt(g, disk', other, p) == ByteAt(g, disk, other, p)
  {
    forall p | 0 <= p < Capacity(g, other)
      ensures ByteAt(g, disk', other, p) == ByteAt(g, disk, other, p)
    {
      FileLbaInRange(g, disk, other, p);
      ClusterIndexInRange(g, other, p);
      assert other[ClusterIndex(g, p)] !in chain;
    }
  }
}
