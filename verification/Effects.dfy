/** What an operation on one file may do to the volume: nothing to any cluster that belongs to
    something else. */
module Effects {
  import opened Words
  import opened FatLayout
  import opened Geometry
  import opened Volume
  import opened Chains
  import opened FileMap
  import opened Allocator
  import opened FileState

  ghost predicate SameCluster(g: Geometry, v: seq<Sector>, v': seq<Sector>, c: nat)
    requires 2 <= c
  {
    forall k :: 0 <= k < |v| && k < |v'| && g.ClusterSector(c) <= k < g.ClusterSector(c) + g.csize ==> v'[k] == v[k]
  }

  /** Cluster `c` belongs to something else than the owner of the clusters `own`. */
  ghost predicate Foreign(s: Snapshot, own: seq<int>, c: int) {
    2 <= c < |s.fat| && s.fat[c] != 0 && c !in own
  }

  /** From `s` to `s'` the entries and the data of all foreign clusters are the same, and so is everything
      outside the FATs and the clusters. Unless a transfer has failed the second FAT is as good as before.
      The window shows nothing new but FAT sectors. */
  ghost predicate SparesForeign(g: Geometry, s: Snapshot, s': Snapshot, own: seq<int>) {
    && |s'.view| == |s.view| && |s'.fat| == |s.fat| && s.faults <= s'.faults
    && (forall c :: Foreign(s, own, c) ==> s'.fat[c] == s.fat[c] && SameCluster(g, s.view, s'.view, c))
    && (forall k :: 0 <= k < |s.view| && Outside(g, k) ==> s'.view[k] == s.view[k])
    && (s.mirrored && s.faults == s'.faults ==> s'.mirrored)
    && WindowIn(g, s.window, s'.window)
  }

  /** Sector `k` belongs to no FAT and to no cluster: it lies before the first one, or behind the last one (on
      the device, behind the volume). */
  ghost predicate Outside(g: Geometry, k: nat) {
    (k < g.database && !g.InFat(k) && !g.InMirror(k)) || (2 <= g.nFatEnt && g.End() <= k)
  }

  /** The data of all clusters but `own` are the same, of free clusters, too. */
  ghost predicate Leaves(g: Geometry, s: Snapshot, s': Snapshot, own: seq<int>) {
    forall c :: 2 <= c < g.nFatEnt && c !in own ==> SameCluster(g, s.view, s'.view, c)
  }

  /** From `s` to `s'` nothing has changed but the FATs, where foreign entries are the same, and the data of the
      clusters `own`. */
  ghost predicate Spares(g: Geometry, s: Snapshot, s': Snapshot, own: seq<int>) {
    SparesForeign(g, s, s', own) && Leaves(g, s, s', own)
  }

  lemma SparesSame(g: Geometry, s: Snapshot, own: seq<int>)
    ensures Spares(g, s, s, own)
  {
  }

  /** Clusters that were free when the first operation took them may be used by the second. */
  lemma ForeignTrans(g: Geometry, s: Snapshot, s': Snapshot, s'': Snapshot, own: seq<int>, own': seq<int>)
    requires SparesForeign(g, s, s', own) && SparesForeign(g, s', s'', own')
    requires forall c :: c in own' && c !in own && 2 <= c < |s.fat| ==> s.fat[c] == 0
    ensures SparesForeign(g, s, s'', own)
  {
    forall c | Foreign(s, own, c)
      ensures s''.fat[c] == s.fat[c] && SameCluster(g, s.view, s''.view, c)
    {
      assert Foreign(s', own', c);
    }
  }

  lemma LeavesTrans(g: Geometry, s: Snapshot, s': Snapshot, s'': Snapshot, own: seq<int>, own': seq<int>, all: seq<int>)
    requires Leaves(g, s, s', own) && Leaves(g, s', s'', own') && |s.view| == |s'.view| == |s''.view|
    requires forall c :: c in own || c in own' ==> c in all
    ensures Leaves(g, s, s'', all)
  {
    forall c | 2 <= c < g.nFatEnt && c !in all
      ensures SameCluster(g, s.view, s''.view, c)
    {
      assert SameCluster(g, s.view, s'.view, c) && SameCluster(g, s'.view, s''.view, c);
    }
  }

  lemma SparesTrans(g: Geometry, s: Snapshot, s': Snapshot, s'': Snapshot, own: seq<int>)
    requires Spares(g, s, s', own) && Spares(g, s', s'', own)
    ensures Spares(g, s, s'', own)
  {
    ForeignTrans(g, s, s', s'', own, own);
    LeavesTrans(g, s, s', s'', own, own, own);
  }

  lemma ClustersPastFats(g: Geometry, v: seq<Sector>, v': seq<Sector>)
    requires g.FatsEnd() <= g.database && SameOutsideFats(g, v, v')
    ensures forall c: nat :: 2 <= c ==> SameCluster(g, v, v', c)
    ensures forall k :: 0 <= k < |v| && Outside(g, k) ==> v'[k] == v[k]
  {
    forall c: nat | 2 <= c
      ensures SameCluster(g, v, v', c)
    {
    }
  }

  lemma SparesKeeps(g: Geometry, s: Snapshot, s': Snapshot, own: seq<int>)
    requires g.FatsEnd() <= g.database && Keeps(g, s, s') && s.faults <= s'.faults
    ensures Spares(g, s, s', own)
  {
    ClustersPastFats(g, s.view, s'.view);
  }

  lemma SparesUpdates(g: Geometry, s: Snapshot, s': Snapshot, own: seq<int>)
    requires g.FatsEnd() <= g.database && Updates(g, s, s') && s.faults <= s'.faults && |s'.fat| == |s.fat|
    requires forall c :: Foreign(s, own, c) ==> s'.fat[c] == s.fat[c]
    ensures Spares(g, s, s', own)
  {
    ClustersPastFats(g, s.view, s'.view);
  }

  /** Writing sectors of the file. */
  lemma SparesWrite(g: Geometry, s: Snapshot, s': Snapshot, own: seq<int>, n: nat, m: nat, sect: nat)
    requires g.csize > 0 && AllClusters(g, own) && |s.fat| == g.nFatEnt
    requires WritesOnly(g, s, s', sect, m) && s.faults <= s'.faults && n + m <= SectorCount(g, own)
    requires forall k :: n <= k < n + m ==> SectorNo(g, own, k) == sect + (k - n)
    ensures Spares(g, s, s', own)
  {
    forall c | 2 <= c < g.nFatEnt && c !in own
      ensures SameCluster(g, s.view, s'.view, c)
    {
      forall x | 0 <= x < |s.view| && g.ClusterSector(c) <= x < g.ClusterSector(c) + g.csize
        ensures s'.view[x] == s.view[x]
      {
        if sect <= x < sect + m {
          var k := n + (x - sect);
          assert SectorNo(g, own, k) == x;
          ClustersApart(g, x, c, own[k / g.csize]);
        }
      }
    }
    forall x | 0 <= x < |s.view| && Outside(g, x)
      ensures s'.view[x] == s.view[x]
    {
      if sect <= x < sect + m {
        var k := n + (x - sect);
        assert SectorNo(g, own, k) == x;
        assert own[k / g.csize] in own;
        SectorsInside(g, own);
      }
    }
  }

  /** A change of the FAT that spares every allocated entry but, possibly, one of the file's own. */
  lemma SparesFat(g: Geometry, s: Snapshot, s': Snapshot, own: seq<int>, c: int)
    requires g.FatsEnd() <= g.database && Updates(g, s, s') && s.faults <= s'.faults
    requires KeepsOthers(s.fat, s'.fat, c) && (c in own || c < 2)
    ensures Spares(g, s, s', own)
  {
    SparesUpdates(g, s, s', own);
  }

  /** A file function has gone from `s` to `s'` and its chain from `chain` to `chain'`: it has spared
      everything foreign and has taken only clusters that were free. Unless a transfer has failed a
      proper chain is a proper one again, the clusters it has given up are free, and no other cluster
      has been lost. */
  ghost predicate Confined(g: Geometry, s: Snapshot, chain: seq<int>, s': Snapshot, chain': seq<int>) {
    && SparesForeign(g, s, s', chain)
    && (forall c :: c in chain' && c !in chain ==> 2 <= c < |s.fat| && s.fat[c] == 0)
    && (s.faults == s'.faults && IsChainOrEmpty(s.fat, chain) ==> Replaces(s.fat, chain, s'.fat, chain'))
  }

  /** A known number of free clusters goes down by one with each cluster taken. */
  ghost predicate Counted(g: Geometry, s: Snapshot, chain: seq<int>, s': Snapshot, chain': seq<int>) {
    s'.freeClst == if s.freeClst <= g.nFatEnt - 2 then s.freeClst - (|chain'| - |chain|) else s.freeClst
  }

  /** The clusters are still allocated, those taken, too. */
  ghost predicate Held(s: Snapshot, chain: seq<int>, s': Snapshot, chain': seq<int>) {
    forall c :: c in chain' && (c in chain ==> 0 <= c < |s.fat| && s.fat[c] != 0) ==>
        0 <= c < |s'.fat| && s'.fat[c] != 0
  }

  /** The same for a function that gives nothing up: the only data that change are those of the file's clusters,
      and the clusters taken are counted. */
  ghost predicate Advances(g: Geometry, s: Snapshot, chain: seq<int>, s': Snapshot, chain': seq<int>) {
    && chain <= chain' && Confined(g, s, chain, s', chain') && Leaves(g, s, s', chain')
    && Counted(g, s, chain, s', chain') && Held(s, chain, s', chain')
  }

  lemma AdvancesSame(g: Geometry, s: Snapshot, s': Snapshot, chain: seq<int>)
    requires Spares(g, s, s', chain) && s'.freeClst == s.freeClst && s'.fat == s.fat
    ensures Advances(g, s, chain, s', chain)
  {
  }

  /** After a failed attempt to take a cluster the table may have changed. */
  lemma AdvancesFailed(g: Geometry, s: Snapshot, s': Snapshot, chain: seq<int>)
    requires Spares(g, s, s', chain) && s'.freeClst == s.freeClst && s.faults < s'.faults && Held(s, chain, s', chain)
    ensures Advances(g, s, chain, s', chain)
  {
    hide Held;
  }

  lemma AdvancesMore(g: Geometry, s: Snapshot, s': Snapshot, chain: seq<int>, r: int)
    requires Spares(g, s, s', chain) && 2 <= r < |s.fat| && s.fat[r] == 0
    requires s'.freeClst == if s.freeClst <= g.nFatEnt - 2 then s.freeClst - 1 else s.freeClst
    requires Exchanges(s.fat, chain, s'.fat, chain + [r]) && IsChainOrEmpty(s'.fat, chain + [r])
    ensures Advances(g, s, chain, s', chain + [r])
  {
    hide IsChainOrEmpty, Exchanges;
    forall c | c in chain + [r]
      ensures 0 <= c < |s'.fat| && s'.fat[c] != 0
    {
      IsOne(s'.fat, chain + [r]);
      AllocatedInChain(s'.fat, chain + [r], c);
    }
  }

  lemma IsOne(fat: seq<int>, chain: seq<int>)
    requires IsChainOrEmpty(fat, chain) && chain != []
    ensures IsChain(fat, chain)
  {
  }

  lemma AdvancesNot(g: Geometry, s: Snapshot, chain: seq<int>)
    ensures Advances(g, s, chain, s, chain)
  {
  }

  lemma ConfinedTrans(g: Geometry, s: Snapshot, a: seq<int>, s': Snapshot, b: seq<int>, s'': Snapshot, c: seq<int>)
    requires Confined(g, s, a, s', b) && Confined(g, s', b, s'', c)
    ensures Confined(g, s, a, s'', c)
  {
    hide Exchanges, IsChainOrEmpty, Replaces;
    ForeignTrans(g, s, s', s'', a, b);
    if s.faults == s''.faults && IsChainOrEmpty(s.fat, a) {
      assert IsChainOrEmpty(s'.fat, b) by { ReplacesChain(s.fat, a, s'.fat, b); }
      ReplacesTrans(s.fat, a, s'.fat, b, s''.fat, c);
    }
    forall x | x in c && x !in a
      ensures 2 <= x < |s.fat| && s.fat[x] == 0
    {
      if x !in b {
        assert s'.fat[x] == 0;
        assert !Foreign(s, a, x);
      }
    }
  }

  lemma AdvancesTrans(g: Geometry, s: Snapshot, a: seq<int>, s': Snapshot, b: seq<int>, s'': Snapshot, c: seq<int>)
    requires Advances(g, s, a, s', b) && Advances(g, s', b, s'', c)
    ensures Advances(g, s, a, s'', c)
  {
    hide Confined, Leaves, Held;
    ConfinedTrans(g, s, a, s', b, s'', c);
    ConfinedViews(g, s, a, s', b);
    ConfinedViews(g, s', b, s'', c);
    LeavesTrans(g, s, s', s'', b, c, c);
    HeldTrans(s, a, s', b, s'', c);
  }

  lemma HeldTrans(s: Snapshot, a: seq<int>, s': Snapshot, b: seq<int>, s'': Snapshot, c: seq<int>)
    requires Held(s, a, s', b) && Held(s', b, s'', c)
    ensures Held(s, a, s'', c)
  {
  }

  lemma ConfinedViews(g: Geometry, s: Snapshot, chain: seq<int>, s': Snapshot, chain': seq<int>)
    requires Confined(g, s, chain, s', chain')
    ensures |s'.view| == |s.view| && |s'.fat| == |s.fat| && s.faults <= s'.faults
  {
  }

  lemma AdvancesPrefix(g: Geometry, s: Snapshot, chain: seq<int>, s': Snapshot, chain': seq<int>)
    requires Advances(g, s, chain, s', chain')
    ensures chain <= chain'
  {
  }

  /** What any file function may do: it is confined, the only data that change are those of clusters that the
      file has had or has now, and the clusters it has taken are allocated. */
  ghost predicate Did(g: Geometry, s: Snapshot, chain: seq<int>, s': Snapshot, chain': seq<int>) {
    && Confined(g, s, chain, s', chain') && Leaves(g, s, s', chain + chain')
    && forall c :: c in chain' && c !in chain ==> 0 <= c < |s'.fat| && s'.fat[c] != 0
  }

  lemma AdvancesDid(g: Geometry, s: Snapshot, chain: seq<int>, s': Snapshot, chain': seq<int>)
    requires Advances(g, s, chain, s', chain')
    ensures Did(g, s, chain, s', chain')
  {
    hide Confined;
  }

  /** A function that takes nothing. */
  lemma SparesDid(g: Geometry, s: Snapshot, chain: seq<int>, s': Snapshot, chain': seq<int>)
    requires Confined(g, s, chain, s', chain') && Spares(g, s, s', chain) && forall c :: c in chain' ==> c in chain
    ensures Did(g, s, chain, s', chain')
  {
    hide Confined;
  }
}
