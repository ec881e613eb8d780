/** The sectors of a file: its clusters, in the order of its chain, each with its sectors in order. */
module FileMap {
  import opened Words
  import opened FatLayout
  import opened Geometry
  import Arith

  ghost predicate AllClusters(g: Geometry, chain: seq<int>) {
    forall k :: 0 <= k < |chain| ==> 2 <= chain[k] < g.nFatEnt
  }

  /** No cluster occurs twice. */
  ghost predicate Distinct(chain: seq<int>) {
    forall k, m :: 0 <= k < m < |chain| ==> chain[k] != chain[m]
  }

  /** There are not more clusters than numbers for them. */
  lemma {:induction false} DistinctBound(chain: seq<int>, n: nat)
    requires Distinct(chain) && forall k :: 0 <= k < |chain| ==> 0 <= chain[k] < n
    ensures |chain| <= n
  {
    if chain != [] {
      assert 0 <= chain[0] < n;
      if i :| 0 <= i < |chain| && chain[i] == n - 1 {
        DistinctBound(chain[..i] + chain[i + 1..], n - 1);
      } else {
        DistinctBound(chain, n - 1);
      }
    }
  }

  /** Number of sectors of the clusters in `chain`. */
  function SectorCount(g: Geometry, chain: seq<int>): nat {
    |chain| * g.csize
  }

  lemma ClusterIndex(g: Geometry, chain: seq<int>, n: int)
    requires g.csize > 0 && 0 <= n < SectorCount(g, chain)
    ensures 0 <= n / g.csize < |chain| && 0 <= n % g.csize < g.csize
  {
    Arith.QuotientBelow(n, g.csize, |chain|);
  }

  /** The device sector that holds sector `n` of the file. */
  function SectorNo(g: Geometry, chain: seq<int>, n: int): (s: int)
    requires g.csize > 0 && AllClusters(g, chain) && 0 <= n < SectorCount(g, chain)
    ensures 0 <= n / g.csize < |chain|
    ensures s == g.ClusterSector(chain[n / g.csize]) + n % g.csize
    ensures g.InCluster(s, chain[n / g.csize])
  {
    ClusterIndex(g, chain, n);
    g.ClusterSector(chain[n / g.csize]) + n % g.csize
  }

  /** Sector `n` of the file is device sector `s`. */
  ghost predicate IsSector(g: Geometry, chain: seq<int>, n: int, s: int) {
    g.csize > 0 && AllClusters(g, chain) && 0 <= n < SectorCount(g, chain) && s == SectorNo(g, chain, n)
  }

  lemma ClusterBounds(g: Geometry, c: int)
    requires 2 <= c < g.nFatEnt
    ensures g.database <= g.ClusterSector(c) && g.ClusterSector(c) + g.csize <= g.End()
  {
    Arith.MulMono(c - 1, g.nFatEnt - 2, g.csize);
    assert g.csize * (c - 2) + g.csize == (c - 1) * g.csize;
  }

  /** Bytes in a cluster. */
  function ClusterBytes(g: Geometry): nat {
    g.csize * SS
  }

  /** Position of the first byte of the cluster with index `k`. */
  function ClusterPos(g: Geometry, k: nat): nat {
    k * ClusterBytes(g)
  }

  /** The start of the cluster with index `k`. */
  lemma ClusterStart(g: Geometry, k: nat)
    requires g.csize > 0
    ensures ClusterPos(g, k) / SS / g.csize == k && ClusterPos(g, k) % SS == 0
    ensures ClusterPos(g, k + 1) == ClusterPos(g, k) + ClusterBytes(g) > ClusterPos(g, k)
  {
    var n := k * g.csize;
    assert k * ClusterBytes(g) == n * SS;
    Arith.DivModUnique(n, g.csize, k, 0);
  }

  /** Clusters do not overlap. */
  lemma ClustersApart(g: Geometry, s: nat, c: nat, d: nat)
    requires g.csize > 0 && g.InCluster(s, c) && g.InCluster(s, d)
    ensures c == d
  {
    var o := s - g.database;
    Arith.DivModUnique(o, g.csize, c - 2, o - g.csize * (c - 2));
    Arith.DivModUnique(o, g.csize, d - 2, o - g.csize * (d - 2));
  }

  lemma SectorNoInjective(g: Geometry, chain: seq<int>, n: int, m: int)
    requires g.csize > 0 && AllClusters(g, chain) && Distinct(chain)
    requires 0 <= n < SectorCount(g, chain) && 0 <= m < SectorCount(g, chain)
    requires SectorNo(g, chain, n) == SectorNo(g, chain, m)
    ensures n == m
  {
    var s := SectorNo(g, chain, n);
    var k, l := n / g.csize, m / g.csize;
    ClustersApart(g, s, chain[k], chain[l]);
    assert k == l;
    assert n == k * g.csize + n % g.csize && m == l * g.csize + m % g.csize;
  }

  /** The sectors of the file in a volume with sectors `v`. */
  ghost function FileSectors(g: Geometry, v: seq<Sector>, chain: seq<int>): (r: seq<Sector>)
    requires g.csize > 0 && AllClusters(g, chain) && 2 <= g.nFatEnt && g.End() <= |v|
    ensures |r| == SectorCount(g, chain)
    ensures forall n :: 0 <= n < |r| ==> SectorNo(g, chain, n) < |v| && r[n] == v[SectorNo(g, chain, n)]
  {
    SectorsInside(g, chain);
    seq(SectorCount(g, chain), n requires 0 <= n < SectorCount(g, chain) => v[SectorNo(g, chain, n)])
  }

  lemma SectorsInside(g: Geometry, chain: seq<int>)
    requires g.csize > 0 && AllClusters(g, chain) && 2 <= g.nFatEnt
    ensures forall n :: 0 <= n < SectorCount(g, chain) ==> g.database <= SectorNo(g, chain, n) < g.End()
  {
    forall n | 0 <= n < SectorCount(g, chain)
      ensures g.database <= SectorNo(g, chain, n) < g.End()
    {
      var c := chain[SectorNoIndex(g, chain, n)];
      ClusterBounds(g, c);
    }
  }

  function SectorNoIndex(g: Geometry, chain: seq<int>, n: int): (k: int)
    requires g.csize > 0 && 0 <= n < SectorCount(g, chain)
    ensures k == n / g.csize && 0 <= k < |chain|
  {
    ClusterIndex(g, chain, n);
    n / g.csize
  }

  /** Writing one sector of the file changes that sector of the file and no other. */
  lemma SectorWritten(g: Geometry, v: seq<Sector>, chain: seq<int>, n: int, x: Sector)
    requires g.csize > 0 && AllClusters(g, chain) && Distinct(chain) && 2 <= g.nFatEnt && g.End() <= |v|
    requires 0 <= n < SectorCount(g, chain)
    ensures g.database <= SectorNo(g, chain, n) < g.End()
    ensures FileSectors(g, v[SectorNo(g, chain, n) := x], chain) == FileSectors(g, v, chain)[n := x]
  {
    SectorsInside(g, chain);
    var s := SectorNo(g, chain, n);
    var v' := v[s := x];
    forall m | 0 <= m < SectorCount(g, chain)
      ensures FileSectors(g, v', chain)[m] == FileSectors(g, v, chain)[n := x][m]
    {
      if m != n && SectorNo(g, chain, m) == s {
        SectorNoInjective(g, chain, n, m);
      }
    }
  }

  /** The file does not depend on sectors outside its clusters. */
  lemma SectorsFrame(g: Geometry, v: seq<Sector>, v': seq<Sector>, chain: seq<int>)
    requires g.csize > 0 && AllClusters(g, chain) && 2 <= g.nFatEnt && g.End() <= |v| && |v'| == |v|
    requires forall n :: 0 <= n < SectorCount(g, chain) && SectorNo(g, chain, n) < |v| ==>
               v'[SectorNo(g, chain, n)] == v[SectorNo(g, chain, n)]
    ensures FileSectors(g, v', chain) == FileSectors(g, v, chain)
  {
    SectorsInside(g, chain);
  }

  /** A chain that grows at its end keeps the sectors it had. */
  lemma SectorsGrow(g: Geometry, v: seq<Sector>, chain: seq<int>, chain': seq<int>)
    requires g.csize > 0 && AllClusters(g, chain') && 2 <= g.nFatEnt && g.End() <= |v|
    requires chain <= chain'
    ensures AllClusters(g, chain) && SectorCount(g, chain) <= SectorCount(g, chain')
    ensures FileSectors(g, v, chain) <= FileSectors(g, v, chain')
    ensures forall n :: 0 <= n < SectorCount(g, chain) ==> SectorNo(g, chain', n) == SectorNo(g, chain, n)
  {
    assert AllClusters(g, chain) by {
      assert forall k :: 0 <= k < |chain| ==> chain[k] == chain'[k];
    }
    Arith.MulMono(|chain|, |chain'|, g.csize);
    forall n | 0 <= n < SectorCount(g, chain)
      ensures SectorNo(g, chain', n) == SectorNo(g, chain, n)
    {
      ClusterIndex(g, chain, n);
    }
  }

  // ------------------------------------------------------------------------------------------
  // Stepping through the sectors

  /** Index of the cluster that holds the last byte before file position `pos`. */
  function CursorIndex(g: Geometry, pos: int): int
    requires g.csize > 0
  {
    (pos - 1) / SS / g.csize
  }

  /** At the start of a cluster the cluster before is the one with the preceding index; elsewhere it
      is the same cluster. */
  lemma CursorStep(g: Geometry, n: int)
    requires g.csize > 0 && n > 0
    ensures CursorIndex(g, n * SS) == if n % g.csize == 0 then n / g.csize - 1 else n / g.csize
  {
    assert (n * SS - 1) / SS == n - 1;
    var q, r := n / g.csize, n % g.csize;
    assert n == q * g.csize + r;
    if r == 0 {
      assert n - 1 == (q - 1) * g.csize + (g.csize - 1);
      Arith.DivModUnique(n - 1, g.csize, q - 1, g.csize - 1);
    } else {
      Arith.DivModUnique(n - 1, g.csize, q, r - 1);
    }
  }

  /** Inside a sector the cursor's cluster is the sector's cluster. */
  lemma CursorInside(g: Geometry, pos: int, n: int)
    requires g.csize > 0 && 0 <= n && n * SS < pos <= (n + 1) * SS
    ensures CursorIndex(g, pos) == n / g.csize
  {
    assert (pos - 1) / SS == n;
  }

  // ------------------------------------------------------------------------------------------
  // Runs of adjacent clusters

  /** The clusters of `chain` from index `k` to `k + j` are adjacent on the device. */
  ghost predicate Adjacent(chain: seq<int>, k: nat, j: nat) {
    k + j < |chain| && forall i :: k <= i <= k + j ==> chain[i] == chain[k] + (i - k)
  }

  /** So are the sectors of adjacent clusters. */
  lemma AdjacentSectors(g: Geometry, chain: seq<int>, k: nat, j: nat, x: int)
    requires g.csize > 0 && AllClusters(g, chain) && Adjacent(chain, k, j)
    requires k * g.csize <= x < (k + j + 1) * g.csize
    ensures x < SectorCount(g, chain) && k <= x / g.csize <= k + j
    ensures SectorNo(g, chain, x) == g.ClusterSector(chain[k]) + (x - k * g.csize)
  {
    Arith.MulMono(k + j + 1, |chain|, g.csize);
    var q, r := x / g.csize, x % g.csize;
    assert x == q * g.csize + r;
    assert (q + 1) * g.csize == q * g.csize + g.csize;
    if q < k {
      Arith.MulMono(q + 1, k, g.csize);
    }
    if q > k + j {
      Arith.MulMono(k + j + 1, q, g.csize);
    }
    assert chain[q] == chain[k] + (q - k);
    assert g.csize * (chain[q] - 2) == g.csize * (chain[k] - 2) + g.csize * (q - k);
    assert g.csize * (q - k) == q * g.csize - k * g.csize;
  }

  /** The state of the look-ahead for adjacent clusters, from sector `n` of the file on, `cc` sectors
      being wanted: `j` clusters after the first have been found adjacent, and all the `j + 1`
      clusters together have `ccs` sectors. */
  ghost predicate Ahead(g: Geometry, chain: seq<int>, n: nat, cc: nat, j: nat, ccs: nat)
    requires g.csize > 0
  {
    && 0 <= n / g.csize && n / g.csize + j < |chain| && Adjacent(chain, n / g.csize, j)
    && ccs == (j + 1) * g.csize
    && (j > 0 ==> n % g.csize + cc > ccs - g.csize)
  }

  lemma AheadStart(g: Geometry, chain: seq<int>, n: nat, cc: nat)
    requires g.csize > 0 && n / g.csize < |chain|
    ensures Ahead(g, chain, n, cc, 0, g.csize)
  {
  }

  /** While more is wanted than the adjacent clusters hold, the offset at which the link map is asked
      for the next cluster does not wrap around. */
  lemma AheadOffset(g: Geometry, chain: seq<int>, n: nat, cc: nat, j: nat, ccs: nat)
    requires CsizeOk(g) && Ahead(g, chain, n, cc, j, ccs)
    requires n % g.csize + cc > ccs && (n + cc) * SS < TWO32
    ensures (n + ccs) * SS < TWO32 && (n * SS + ccs * SS) / SS / g.csize == n / g.csize + j + 1
  {
    hide Adjacent;
    NextStart(n, g.csize, j, ccs, cc);
    LookAheadOffset(g, n, j, ccs);
    WholeOffset(n, ccs);
  }

  /** Where the cluster after the adjacent ones starts, in sectors of the file. */
  lemma NextStart(n: nat, csize: nat, j: nat, ccs: nat, cc: nat)
    requires csize > 0 && ccs == (j + 1) * csize && n % csize + cc > ccs
    ensures (n / csize + j + 1) * csize == n - n % csize + ccs < n + cc
    ensures (n + cc) * SS < TWO32 ==> (n / csize + j + 1) * csize * SS < TWO32
  {
    var q := n / csize;
    assert n == q * csize + n % csize;
    assert (q + j + 1) * csize == q * csize + (j + 1) * csize;
  }

  lemma WholeOffset(n: nat, ccs: nat)
    ensures (n * SS + ccs * SS) / SS == n + ccs
  {
  }

  /** The next cluster begins before the end of what is wanted. */
  lemma AheadPos(g: Geometry, chain: seq<int>, n: nat, cc: nat, j: nat, ccs: nat)
    requires g.csize > 0 && Ahead(g, chain, n, cc, j, ccs) && n % g.csize + cc > ccs
    ensures 0 <= n / g.csize && n / g.csize + j < |chain|
    ensures ClusterPos(g, n / g.csize + j + 1) < (n + cc) * SS
  {
    hide Adjacent;
    NextStart(n, g.csize, j, ccs, cc);
    assert ClusterPos(g, n / g.csize + j + 1) == (n / g.csize + j + 1) * g.csize * SS;
  }

  /** The same inside a file; and then the chain has another cluster. */
  lemma AheadInside(g: Geometry, chain: seq<int>, n: nat, cc: nat, j: nat, ccs: nat, size: u32)
    requires CsizeOk(g) && Ahead(g, chain, n, cc, j, ccs)
    requires n % g.csize + cc > ccs && (n + cc) * SS <= size <= SectorCount(g, chain) * SS
    ensures n / g.csize + j + 1 < |chain|
    ensures (n + ccs) * SS < TWO32 && (n * SS + ccs * SS) / SS / g.csize == n / g.csize + j + 1
  {
    AheadOffset(g, chain, n, cc, j, ccs);
    NextIndex(n, g.csize, j, |chain|, cc);
  }

  lemma NextIndex(n: nat, csize: nat, j: nat, len: nat, cc: nat)
    requires csize > 0 && n % csize + cc > (j + 1) * csize && n + cc <= len * csize
    ensures n / csize + j + 1 < len
  {
    var k := n / csize;
    assert n == k * csize + n % csize;
    assert (k + j + 1) * csize == k * csize + (j + 1) * csize;
    if k + j + 1 >= len {
      Arith.MulMono(len, k + j + 1, csize);
    }
  }

  lemma AheadGrow(g: Geometry, chain: seq<int>, chain': seq<int>, n: nat, cc: nat, j: nat, ccs: nat)
    requires g.csize > 0 && Ahead(g, chain, n, cc, j, ccs) && chain <= chain'
    ensures Ahead(g, chain', n, cc, j, ccs)
  {
    assert forall i :: 0 <= i < |chain| ==> chain'[i] == chain[i];
  }

  lemma AheadStep(g: Geometry, chain: seq<int>, n: nat, cc: nat, j: nat, ccs: nat)
    requires g.csize > 0 && Ahead(g, chain, n, cc, j, ccs) && n % g.csize + cc > ccs
    requires n / g.csize + j + 1 < |chain| && chain[n / g.csize + j + 1] == chain[n / g.csize + j] + 1
    ensures Ahead(g, chain, n, cc, j + 1, ccs + g.csize)
  {
    assert (j + 2) * g.csize == ccs + g.csize;
  }

  /** The device sectors of `len` sectors of the file from sector `n` on follow one another. */
  ghost predicate InRun(g: Geometry, chain: seq<int>, n: int, len: nat) {
    && g.csize > 0 && AllClusters(g, chain) && 0 <= n && n + len <= SectorCount(g, chain)
    && forall x :: n <= x < n + len ==> SectorNo(g, chain, x) == SectorNo(g, chain, n) + (x - n)
  }

  /** ... from device sector `s` on. */
  ghost predicate RunAt(g: Geometry, chain: seq<int>, n: int, len: nat, s: int) {
    0 < len && InRun(g, chain, n, len) && s == SectorNo(g, chain, n)
  }

  lemma AheadArith(n: nat, csize: nat, j: nat, ccs: nat, cc: nat, len: nat)
    requires csize > 0 && ccs == (j + 1) * csize && cc > 0 && (j > 0 ==> n % csize + cc > ccs - csize)
    requires len == if n % csize + cc > ccs then ccs - n % csize else cc
    ensures 1 <= len <= cc
    ensures n / csize * csize <= n && n + len <= (n / csize + j + 1) * csize
    ensures (n + len - 1) / csize == n / csize + j
  {
    var k, csect := n / csize, n % csize;
    assert n == k * csize + csect;
    assert (k + j) * csize == k * csize + j * csize;
    assert (k + j + 1) * csize == k * csize + ccs && ccs == j * csize + csize;
    Arith.MulMono(0, j, csize);
    Arith.DivModUnique(n + len - 1, csize, k + j, n + len - 1 - (k + j) * csize);
  }

  /** What the look-ahead yields: the adjacent clusters, cut to what is wanted. */
  lemma AheadEnd(g: Geometry, chain: seq<int>, n: nat, cc: nat, j: nat, ccs: nat, len: nat)
    requires g.csize > 0 && AllClusters(g, chain) && Ahead(g, chain, n, cc, j, ccs) && cc > 0
    requires len == if n % g.csize + cc > ccs then ccs - n % g.csize else cc
    ensures 1 <= len <= cc && InRun(g, chain, n, len)
    ensures CursorIndex(g, (n + len) * SS) == n / g.csize + j
  {
    hide SectorNo, Adjacent;
    AheadArith(n, g.csize, j, ccs, cc, len);
    var k := n / g.csize;
    Arith.MulMono(k + j + 1, |chain|, g.csize);
    forall x | n <= x < n + len
      ensures x < SectorCount(g, chain) && SectorNo(g, chain, x) == SectorNo(g, chain, n) + (x - n)
    {
      AdjacentSectors(g, chain, k, j, x);
      AdjacentSectors(g, chain, k, j, n);
    }
    CursorInside(g, (n + len) * SS, n + len - 1);
  }

  /** The offset at which the look-ahead asks the link map for the next cluster. */
  lemma LookAheadOffset(g: Geometry, n: nat, j: nat, ccs: nat)
    requires CsizeOk(g) && ccs == (j + 1) * g.csize
    requires (n / g.csize + j + 1) * g.csize * SS < TWO32
    ensures (n + ccs) / g.csize == n / g.csize + j + 1
    ensures (n + ccs) * SS < TWO32
  {
    hide CsizeOk;
    SmallCluster(g);
    var start := StartOf(n, g.csize, j, ccs);
    WholeClusters(g.csize, start);
  }

  lemma SmallCluster(g: Geometry)
    requires CsizeOk(g)
    ensures g.csize in {1, 2, 4, 8, 16, 32, 64, 128}
  {
  }

  lemma StartOf(n: nat, csize: nat, j: nat, ccs: nat) returns (start: nat)
    requires csize > 0 && ccs == (j + 1) * csize
    ensures start == (n / csize + j + 1) * csize && start % csize == 0
    ensures n + ccs == start + n % csize && (n + ccs) / csize == n / csize + j + 1
  {
    var k := n / csize;
    start := (k + j + 1) * csize;
    assert n == k * csize + n % csize;
    assert start == k * csize + (j + 1) * csize;
    Arith.DivModUnique(n + ccs, csize, k + j + 1, n % csize);
    Arith.DivModUnique(start, csize, k + j + 1, 0);
  }

  /** A cluster that starts below 2^32 bytes ends there at the latest. */
  lemma WholeClusters(csize: nat, start: nat)
    requires csize in {1, 2, 4, 8, 16, 32, 64, 128} && start < 0x80_0000 && start % csize == 0
    ensures start + csize <= 0x80_0000
  {
  }
}
