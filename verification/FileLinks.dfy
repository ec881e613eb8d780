/** f_lseek with CREATE_LINKMAP: the building of the link map. */
module FileLinks {
  import opened Words
  import opened Geometry
  import opened Volume
  import opened Chains
  import opened FileMap
  import opened FileState
  import opened LinkMap
  import opened Files
  import opened FileGrow

  /** The end mark of the chain is the number after its last cluster. (The one case in which the
      code mistakes it for a link to an adjacent cluster.) */
  ghost predicate EndLooksAdjacent(fat: seq<int>, chain: seq<int>) {
    && chain != [] && 0 <= chain[|chain| - 1] < |fat|
    && fat[chain[|chain| - 1]] == chain[|chain| - 1] + 1
  }

  /** The inner loop of CREATE_LINKMAP: one run of adjacent clusters, from the cluster with index `k`. */
  method Fragment(fp: File, top: u32, ghost k: nat) returns (res: FResult, ncl: nat, cl: u32)
    requires fp.Ready() && k < |fp.chain| && top == fp.chain[k]
    modifies fp.fs`winsect, fp.fs`wflag, fp.fs.win, fp.fs.disk
    ensures fp.Ready() && old(fp.fs.disk.faults) <= fp.fs.disk.faults
    ensures Keeps(fp.fs.g, old(fp.fs.Snap()), fp.fs.Snap())
    ensures res in {Ok, IntErr} || (res == DiskErr && old(fp.fs.disk.faults) < fp.fs.disk.faults)
    ensures res == IntErr ==> EndLooksAdjacent(fp.fs.fat, fp.chain)
    ensures res == Ok ==> ncl == RunLength(fp.chain[k..])
    ensures res == Ok ==>
              if k + ncl < |fp.chain| then cl == fp.chain[k + ncl]
              else cl >= fp.fs.g.nFatEnt && !EndLooksAdjacent(fp.fs.fat, fp.chain)
  {
    hide Volume.Valid, Volume.View, Volume.Snap, Holds, InFile, Distinct, IsChain, IsChainOrEmpty, Mappable, File.Ready,
         Keeps, RunLength;
    SameKeeps(fp.fs.g, fp.fs.Snap());
    res, ncl, cl := Ok, 0, top;
    while true
      invariant fp.Ready() && old(fp.fs.disk.faults) <= fp.fs.disk.faults && res == Ok
      invariant Keeps(fp.fs.g, old(fp.fs.Snap()), fp.fs.Snap())
      invariant k + ncl <= |fp.chain| && cl == top + ncl
      invariant forall i :: 0 <= i < ncl ==> fp.chain[k..][i] == top + i
      invariant if k + ncl < |fp.chain| then cl == fp.chain[k + ncl]
                else EndLooksAdjacent(fp.fs.fat, fp.chain) && cl == fp.fs.g.nFatEnt
      decreases |fp.chain| - ncl
    {
      var pcl := cl;
      ghost var s := fp.fs.Snap();
      cl := FollowChain(fp, k + ncl, cl);
      KeepsTrans(fp.fs.g, old(fp.fs.Snap()), s, fp.fs.Snap());
      if cl <= 1 { return IntErr, ncl, cl; }
      if cl == DISK_ERROR { return DiskErr, ncl, cl; }
      ncl := ncl + 1;
      if cl != pcl + 1 { break; }
    }
    RunLengthIs(fp.chain[k..], ncl);
  }

  /** get_fat at the cluster with index `k`, or past the end mark. */
  method FollowChain(fp: File, ghost k: nat, cl: u32) returns (r: u32)
    requires fp.Ready() && k <= |fp.chain| && if k < |fp.chain| then cl == fp.chain[k] else cl == fp.fs.g.nFatEnt
    modifies fp.fs`winsect, fp.fs`wflag, fp.fs.win, fp.fs.disk
    ensures fp.Ready() && old(fp.fs.disk.faults) <= fp.fs.disk.faults
    ensures Keeps(fp.fs.g, old(fp.fs.Snap()), fp.fs.Snap())
    ensures r == DISK_ERROR ==> old(fp.fs.disk.faults) < fp.fs.disk.faults
    ensures k == |fp.chain| ==> r == INTERNAL_ERROR
    ensures k + 1 < |fp.chain| && r != DISK_ERROR ==> r == fp.chain[k + 1] >= 2
    ensures k + 1 == |fp.chain| && r != DISK_ERROR ==>
              r >= fp.fs.g.nFatEnt && (r == cl + 1 <==> EndLooksAdjacent(fp.fs.fat, fp.chain))
    ensures k + 1 == |fp.chain| && r == cl + 1 ==> r == fp.fs.g.nFatEnt
  {
    hide Volume.Valid, Volume.View, Volume.Snap, Holds, InFile, IsChain, Distinct;
    fp.Parts();
    LinkOrEnd(fp.fs.fat, fp.chain, if k < |fp.chain| then k else -1);
    r := fp.fs.GetFat(cl);
    fp.fs.Contents();
    HoldsOutsideFats(fp.fs.g, old(fp.fs.View()), fp.fs.View(), fp.chain, fp.dirty, fp.sect, fp.buf[..], fp.content);
    WindowOff(fp.fs.g, fp.fs.View(), fp.chain, old(fp.fs.winsect), fp.fs.winsect);
  }

  lemma SameKeeps(g: Geometry, s: Snapshot)
    ensures Keeps(g, s, s)
  {
  }

  lemma KeepsTrans(g: Geometry, s: Snapshot, s': Snapshot, s'': Snapshot)
    requires Keeps(g, s, s') && Keeps(g, s', s'') && s.faults <= s'.faults <= s''.faults
    ensures Keeps(g, s, s'')
  {
  }

  lemma NextRun(tbl: seq<u32>, tbl': seq<u32>, chain: seq<int>, k: nat, u: nat, ncl: u32, top: u32)
    requires k < |chain| && 1 <= u && u + 1 < |tbl| == |tbl'| && Listed(tbl, 1, chain[..k], u)
    requires ncl == RunLength(chain[k..]) && top == chain[k]
    requires tbl'[u] == ncl && tbl'[u + 1] == top && forall i :: 0 <= i < |tbl| && i != u && i != u + 1 ==>
              tbl'[i] == tbl[i]
    ensures k + ncl <= |chain| && Listed(tbl', 1, chain[..k + ncl], u + 2)
  {
    hide RunLength;
    var run := chain[k..][..ncl];
    ListedMore(tbl, tbl', 1, chain[..k], u, run);
    assert chain[..k] + run == chain[..k + ncl];
  }

  /** Stores one more run. */
  method PutRun(tbl: array<u32>, u: nat, ncl: u32, top: u32, ghost chain: seq<int>, ghost k: nat)
    requires k < |chain| && 1 <= u && u + 1 < tbl.Length && Listed(tbl[..], 1, chain[..k], u)
    requires ncl == RunLength(chain[k..]) && top == chain[k]
    modifies tbl
    ensures k + ncl <= |chain| && Listed(tbl[..], 1, chain[..k + ncl], u + 2)
  {
    hide Listed, RunLength;
    tbl[u] := ncl;
    tbl[u + 1] := top;
    NextRun(old(tbl[..]), tbl[..], chain, k, u, ncl, top);
  }

  /** Completes the table: its size, and the end of the list if there is room. */
  method EndRuns(tbl: array<u32>, ulen: u32, tlen: u32, ghost chain: seq<int>)
    requires 2 <= ulen && 1 <= tbl.Length && tlen <= tbl.Length
    requires ulen <= tlen ==> Listed(tbl[..], 1, chain, ulen - 1)
    modifies tbl
    ensures tbl[0] == ulen
    ensures ulen <= tlen ==> Encodes(tbl[..], 1, chain)
  {
    hide Listed, Encodes;
    tbl[0] := ulen;
    if ulen <= tlen {
      tbl[ulen - 1] := 0;
      ListedSame(old(tbl[..]), tbl[..], 1, chain, ulen - 1);
      ListedEnd(tbl[..], 1, chain, ulen - 1);
    }
  }

  lemma RunsStep(chain: seq<int>, k: nat)
    requires k < |chain|
    ensures k + RunLength(chain[k..]) <= |chain|
    ensures RunCount(chain[k..]) == 1 + RunCount(chain[k + RunLength(chain[k..])..])
  {
    assert chain[k..][RunLength(chain[k..])..] == chain[k + RunLength(chain[k..])..];
  }

  /** Number of table entries that the link map of a chain takes. */
  function MapSize(chain: seq<int>): nat {
    2 + 2 * RunCount(chain)
  }

  lemma MapSizeBound(fp: File)
    requires fp.Ready()
    ensures MapSize(fp.chain) < TWO32 && fp.fs.g.nFatEnt < 0x1000_0000 && RunCount([]) == 0
              && |fp.chain| < fp.fs.g.nFatEnt + 1
  {
    hide Volume.Valid, Volume.View, InFile, IsChain;
    fp.Parts();
    DistinctBound(fp.chain, fp.fs.g.nFatEnt);
    RunCountBound(fp.chain);
  }

  /** f_lseek with CREATE_LINKMAP: `cltbl[0]` says how many entries the table may have; if they are
      enough the table becomes the link map of the file. */
  method CreateLinkMap(fp: File) returns (res: FResult)
    requires fp.Ready() && fp.cltbl != null && 1 <= fp.cltbl.Length && fp.cltbl[0] <= fp.cltbl.Length
    modifies fp`mapped, fp.cltbl, fp.fs`winsect, fp.fs`wflag, fp.fs.win, fp.fs.disk
    ensures fp.Ready() && old(fp.fs.disk.faults) <= fp.fs.disk.faults
    ensures Keeps(fp.fs.g, old(fp.fs.Snap()), fp.fs.Snap())
    ensures res in {Ok, NotEnoughCore, IntErr} || (res == DiskErr && old(fp.fs.disk.faults) < fp.fs.disk.faults)
    ensures res != DiskErr ==> (res == IntErr <==> EndLooksAdjacent(fp.fs.fat, fp.chain))
    ensures res in {Ok, NotEnoughCore} ==>
              fp.cltbl[0] == MapSize(fp.chain) && (res == Ok <==> MapSize(fp.chain) <= old(fp.cltbl[0]))
    ensures res == Ok ==> fp.Mapped() && fp.mapped == fp.chain
  {
    hide Volume.Valid, Volume.View, Volume.Snap, Holds, InFile, Distinct, IsChain, IsChainOrEmpty, Mappable, File.Ready,
         Keeps, RunLength, RunCount, Encodes, Listed, EndLooksAdjacent;
    MapSizeBound(fp);
    ghost var chain := fp.chain;
    var tlen := fp.cltbl[0];
    var ulen: u32;
    res, ulen := ListRuns(fp, tlen);
    if res != Ok { return; }
    EndRuns(fp.cltbl, ulen, tlen, chain);
    if ulen <= tlen {
      fp.mapped := chain;
    } else {
      res := NotEnoughCore;
    }
  }

  lemma EmptyList(fp: File)
    requires fp.cltbl != null
    ensures Listed(fp.cltbl[..], 1, [], 1)
    ensures fp.chain == [] ==> !EndLooksAdjacent(fp.fs.fat, fp.chain)
  {
  }

  /** The outer loop of CREATE_LINKMAP. */
  method ListRuns(fp: File, tlen: u32) returns (res: FResult, ulen: u32)
    requires fp.Ready() && fp.cltbl != null && 1 <= fp.cltbl.Length && tlen <= fp.cltbl.Length
    modifies fp.cltbl, fp.fs`winsect, fp.fs`wflag, fp.fs.win, fp.fs.disk
    ensures fp.Ready() && old(fp.fs.disk.faults) <= fp.fs.disk.faults
    ensures Keeps(fp.fs.g, old(fp.fs.Snap()), fp.fs.Snap())
    ensures res in {Ok, IntErr} || (res == DiskErr && old(fp.fs.disk.faults) < fp.fs.disk.faults)
    ensures res != DiskErr ==> (res == IntErr <==> EndLooksAdjacent(fp.fs.fat, fp.chain))
    ensures res == Ok ==> ulen == MapSize(fp.chain)
    ensures res == Ok && ulen <= tlen ==> Listed(fp.cltbl[..], 1, fp.chain, ulen - 1)
  {
    hide Volume.Valid, Volume.View, Volume.Snap, Holds, InFile, Distinct, IsChain, IsChainOrEmpty, Mappable, File.Ready,
         Keeps, RunLength, RunCount, Encodes, Listed, EndLooksAdjacent, File.Mapped;
    EmptyList(fp);
    MapSizeBound(fp);
    SameKeeps(fp.fs.g, fp.fs.Snap());
    ghost var chain := fp.chain;
    ghost var k := 0;
    res, ulen := Ok, 2;
    var cl := fp.sclust;
    fp.Parts();
    assert chain[..0] == [] && chain[0..] == chain;
    if cl != 0 {
      while true
        invariant fp.Ready() && old(fp.fs.disk.faults) <= fp.fs.disk.faults && res == Ok && fp.chain == chain
        invariant Keeps(fp.fs.g, old(fp.fs.Snap()), fp.fs.Snap())
        invariant k < |chain| && cl == chain[k] && 2 <= ulen
        invariant ulen + 2 * RunCount(chain[k..]) == MapSize(chain)
        invariant ulen <= tlen ==> Listed(fp.cltbl[..], 1, chain[..k], ulen - 1)
        decreases |chain| - k
      {
        ghost var s := fp.fs.Snap();
        var tcl, ncl := cl, 0;
        RunsStep(chain, k);
        ulen := ulen + 2;
        res, ncl, cl := Fragment(fp, tcl, k);
        KeepsTrans(fp.fs.g, old(fp.fs.Snap()), s, fp.fs.Snap());
        if res != Ok { return; }
        if ulen <= tlen {
          PutRun(fp.cltbl, ulen - 3, ncl, tcl, chain, k);
        }
        k := k + ncl;
        if cl >= fp.fs.g.nFatEnt { break; }
      }
      assert chain[k..] == [] && chain[..k] == chain;
    }
  }
}
