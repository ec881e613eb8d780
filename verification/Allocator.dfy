/** Allocation and release of clusters: create_chain, remove_chain. */
module Allocator {
  import opened Words
  import opened FatLayout
  import opened Geometry
  import opened Volume
  import opened Chains

  /** Whenever the number of free clusters is known, it is right. */
  ghost predicate CountExact(fs: Volume)
    reads fs`freeClst, fs`fat
  {
    fs.freeClst <= fs.g.nFatEnt - 2 ==> fs.freeClst == Zeros(fs.fat)
  }

  /** A set of clusters closed under following entries. */
  ghost predicate Closed(fat: seq<int>, zone: set<int>) {
    forall c :: c in zone && 2 <= c < |fat| && 2 <= fat[c] < |fat| ==> fat[c] in zone
  }

  /** Entries outside `zone` are the same in both tables. */
  ghost predicate SameOutside(zone: set<int>, fat: seq<int>, fat': seq<int>) {
    |fat'| == |fat| && forall c :: 0 <= c < |fat| && c !in zone ==> fat'[c] == fat[c]
  }

  /** A known number of free clusters `count`, below the greatest one possible, goes up with each cluster given
      back. */
  function Recount(count: int, most: int, given: int): int {
    if count >= most then count else if count + given < most then count + given else most
  }

  /** From `count` and `dirty` on `given` clusters have been given back and counted. */
  ghost predicate Tallied(most: int, count: int, dirty: bool, count': int, dirty': bool, given: int) {
    given >= 0 && count' == Recount(count, most, given) && dirty' == (dirty || count' > count)
  }

  lemma NoTally(most: int, count: int, dirty: bool)
    ensures Tallied(most, count, dirty, count, dirty, 0)
  {
  }

  lemma TallyTrans(most: int, count: int, dirty: bool, count': int, dirty': bool, given: int, count'': int,
                   dirty'': bool, given': int)
    requires Tallied(most, count, dirty, count', dirty', given)
              && Tallied(most, count', dirty', count'', dirty'', given')
    ensures Tallied(most, count, dirty, count'', dirty'', given + given')
  {
  }

  lemma NoneDiffer(zone: set<int>, fat: seq<int>)
    ensures SameOutside(zone, fat, fat)
  {
  }

  lemma StaySame(zone: set<int>, fat: seq<int>, fat': seq<int>, c: int, fat'': seq<int>)
    requires SameOutside(zone, fat, fat') && SameOutside({c}, fat', fat'') && c in zone
    ensures SameOutside(zone, fat, fat'')
  {
  }

  /** The first part of remove_chain: ends the list at `pclst`, if that is not 0. */
  method EndList(fs: Volume, pclst: u32, ghost zone: set<int>) returns (res: FResult)
    requires fs.Valid() && (pclst != 0 ==> pclst in zone) && Closed(fs.fat, zone)
    modifies fs`winsect, fs`wflag, fs`fat, fs.win, fs.disk
    ensures fs.Valid() && old(fs.disk.faults) <= fs.disk.faults
    ensures Updates(fs.g, old(fs.Snap()), fs.Snap()) && SameOutside(zone, old(fs.fat), fs.fat)
    ensures res in {Ok, IntErr, DiskErr} && (res == DiskErr ==> old(fs.disk.faults) < fs.disk.faults)
    ensures res != DiskErr ==> (res == IntErr <==> pclst != 0 && !fs.g.IsCluster(pclst))
    ensures res == IntErr ==> fs.fat == old(fs.fat)
    ensures res == Ok ==>
              Closed(fs.fat, zone)
                  && fs.fat == if pclst == 0 then old(fs.fat) else old(fs.fat)[pclst := Eoc(fs.g.fsType)]
    ensures res == Ok && (fs.g.IsCluster(pclst) ==> old(fs.fat)[pclst] != 0) ==> Zeros(fs.fat) == Zeros(old(fs.fat))
    ensures res == Ok && old(CountExact(fs)) && (fs.g.IsCluster(pclst) ==> old(fs.fat)[pclst] != 0) ==> CountExact(fs)
  {
    hide Volume.Valid, Volume.Snap, Keeps, Updates, Geometry.Sound, Zeros, Closed;
    res := Ok;
    if pclst == 0 {
      SameUpdates(fs.g, fs.Snap());
    } else {
      res := fs.PutFat(pclst, 0xFFFF_FFFF);
      if res == Ok {
        if old(fs.fat)[pclst] != 0 { EocCount(fs, old(fs.fat), pclst); }
        StillClosed(old(fs.fat), pclst, Eoc(fs.g.fsType), zone);
      }
    }
  }

  /** The loop of remove_chain: frees the list at `clst`. */
  method FreeList(fs: Volume, clst: u32, ghost zone: set<int>) returns (res: FResult, ghost given: nat)
    requires fs.Valid() && fs.g.IsCluster(clst) && clst in zone && Closed(fs.fat, zone)
    modifies fs`winsect, fs`wflag, fs`fat, fs`freeClst, fs`fsiDirty, fs.win, fs.disk
    ensures fs.Valid() && old(fs.disk.faults) <= fs.disk.faults
    ensures Updates(fs.g, old(fs.Snap()), fs.Snap()) && SameOutside(zone, old(fs.fat), fs.fat)
    ensures res in {Ok, IntErr, DiskErr} && (res == DiskErr ==> old(fs.disk.faults) < fs.disk.faults)
    ensures res != DiskErr ==> (res, fs.fat) == Freed(old(fs.fat), clst)
    ensures Tallied(fs.g.nFatEnt - 2, old(fs.freeClst), old(fs.fsiDirty), fs.freeClst, fs.fsiDirty, given)
    ensures res != DiskErr ==> given == Zeros(fs.fat) - Zeros(old(fs.fat))
    ensures res == Ok ==> fs.g.InFat(fs.winsect)
  {
    hide Volume.Valid, Volume.Snap, Keeps, Updates, Geometry.Sound, Zeros, Closed, SameOutside, Tallied;
    NoneDiffer(zone, fs.fat);
    SameUpdates(fs.g, fs.Snap());
    NoTally(fs.g.nFatEnt - 2, fs.freeClst, fs.fsiDirty);
    given := 0;
    res := Ok;
    var c: u32 := clst;
    while true
      invariant fs.Valid() && fs.g.IsCluster(c) && c in zone && res == Ok
      invariant old(fs.disk.faults) <= fs.disk.faults && Updates(fs.g, old(fs.Snap()), fs.Snap())
      invariant SameOutside(zone, old(fs.fat), fs.fat) && Closed(fs.fat, zone)
      invariant Freed(fs.fat, c) == Freed(old(fs.fat), clst) && given == Zeros(fs.fat) - Zeros(old(fs.fat))
      invariant Tallied(fs.g.nFatEnt - 2, old(fs.freeClst), old(fs.fsiDirty), fs.freeClst, fs.fsiDirty, given)
      decreases |fs.fat| - Zeros(fs.fat)
    {
      ghost var s, fat, count, dirty := fs.Snap(), fs.fat, fs.freeClst, fs.fsiDirty;
      var nxt;
      nxt, res := FreeOne(fs, c);
      UpdatesTrans(fs.g, old(fs.Snap()), s, fs.Snap());
      StaySame(zone, old(fs.fat), fat, c, fs.fat);
      if res == DiskErr { return; }
      ZerosUpdate(fat, c, 0);
      TallyTrans(fs.g.nFatEnt - 2, old(fs.freeClst), old(fs.fsiDirty), count, dirty, given, fs.freeClst, fs.fsiDirty,
                 Bit(res == Ok && nxt != 0));
      given := given + Bit(res == Ok && nxt != 0);
      if nxt == 0 || res != Ok { return; }
      StillClosed(fat, c, 0, zone);
      if nxt >= fs.g.nFatEnt { break; }
      c := nxt;
    }
  }

  /** remove_chain: frees the list at `clst`, after ending the list at `pclst` if that is not 0. */
  method RemoveChain(fs: Volume, clst: u32, pclst: u32, ghost zone: set<int>) returns (res: FResult)
    requires fs.Valid()
    requires clst in zone && (pclst != 0 ==> pclst in zone) && Closed(fs.fat, zone)
    modifies fs`winsect, fs`wflag, fs`fat, fs`freeClst, fs`fsiDirty, fs.win, fs.disk
    ensures fs.Valid() && old(fs.disk.faults) <= fs.disk.faults
    ensures Updates(fs.g, old(fs.Snap()), fs.Snap())
    ensures SameOutside(zone, old(fs.fat), fs.fat)
    ensures res in {Ok, IntErr, DiskErr}
    ensures res == DiskErr ==> old(fs.disk.faults) < fs.disk.faults
    ensures res != DiskErr ==>
              if !fs.g.IsCluster(clst) || (pclst != 0 && !fs.g.IsCluster(pclst))
              then res == IntErr && fs.fat == old(fs.fat)
              else (res, fs.fat) ==
                     Freed(if pclst == 0 then old(fs.fat) else old(fs.fat)[pclst := Eoc(fs.g.fsType)], clst)
    ensures res != DiskErr && old(CountExact(fs)) && (fs.g.IsCluster(pclst) ==> old(fs.fat)[pclst] != 0) ==>
              CountExact(fs)
    ensures res != DiskErr && (fs.g.IsCluster(pclst) ==> old(fs.fat)[pclst] != 0) ==>
              fs.freeClst as int == Recount(old(fs.freeClst), fs.g.nFatEnt - 2, Zeros(fs.fat) - Zeros(old(fs.fat)))
    ensures old(fs.freeClst) >= fs.g.nFatEnt - 2 ==> fs.freeClst == old(fs.freeClst)
    ensures fs.freeClst >= old(fs.freeClst) && fs.fsiDirty == (old(fs.fsiDirty) || fs.freeClst > old(fs.freeClst))
    ensures res == Ok ==> fs.g.InFat(fs.winsect)
  {
    hide Volume.Valid, Volume.Snap, Keeps, Updates, Geometry.Sound, Zeros, Closed, SameOutside;
    NoneDiffer(zone, fs.fat);
    if clst < 2 || clst >= fs.g.nFatEnt {
      SameUpdates(fs.g, fs.Snap());
      return IntErr;
    }
    res := EndList(fs, pclst, zone);
    if res != Ok { return; }
    ghost var s, fat := fs.Snap(), fs.fat;
    ghost var given;
    res, given := FreeList(fs, clst, zone);
    UpdatesTrans(fs.g, old(fs.Snap()), s, fs.Snap());
    SameTwice(zone, old(fs.fat), fat, fs.fat);
  }

  lemma SameTwice(zone: set<int>, fat: seq<int>, fat': seq<int>, fat'': seq<int>)
    requires SameOutside(zone, fat, fat') && SameOutside(zone, fat', fat'')
    ensures SameOutside(zone, fat, fat'')
  {
  }

  lemma StillClosed(fat: seq<int>, c: int, val: int, zone: set<int>)
    requires Closed(fat, zone) && 0 <= c < |fat|
    requires val == 0 || val >= |fat|
    ensures Closed(fat[c := val], zone)
    ensures c in zone && 2 <= c && 2 <= fat[c] < |fat| ==> fat[c] in zone
  {
  }

  lemma EocCount(fs: Volume, fat: seq<int>, c: int)
    requires fs.g.nFatEnt >= 2 && 2 <= c < |fat| && fat[c] != 0
    requires fs.fat == fat[c := Eoc(fs.g.fsType)]
    ensures Zeros(fs.fat) == Zeros(fat)
    ensures (fs.freeClst <= fs.g.nFatEnt - 2 ==> fs.freeClst == Zeros(fat)) ==> CountExact(fs)
  {
    ZerosUpdate(fat, c, Eoc(fs.g.fsType));
  }

  /** One pass through remove_chain's loop: `nxt` is the entry of `c`, which is freed if it is a
      link or an end mark. */
  method FreeOne(fs: Volume, c: u32) returns (nxt: u32, res: FResult)
    requires fs.Valid() && fs.g.IsCluster(c)
    modifies fs`winsect, fs`wflag, fs`fat, fs`freeClst, fs`fsiDirty, fs.win, fs.disk
    ensures fs.Valid() && old(fs.disk.faults) <= fs.disk.faults
    ensures Updates(fs.g, old(fs.Snap()), fs.Snap())
    ensures SameOutside({c as int}, old(fs.fat), fs.fat)
    ensures res in {Ok, IntErr, DiskErr} && (res == DiskErr ==> old(fs.disk.faults) < fs.disk.faults)
    ensures res != DiskErr ==> nxt == old(fs.fat)[c] && (res == IntErr <==> nxt == 1)
    ensures res != DiskErr ==> fs.fat == if nxt < 2 then old(fs.fat) else old(fs.fat)[c := 0]
    ensures res != DiskErr && old(CountExact(fs)) ==> CountExact(fs)
    ensures if res == DiskErr then fs.freeClst == old(fs.freeClst) && fs.fsiDirty == old(fs.fsiDirty)
            else Tallied(fs.g.nFatEnt - 2, old(fs.freeClst), old(fs.fsiDirty), fs.freeClst, fs.fsiDirty,
                         Bit(res == Ok && nxt != 0))
    ensures res == Ok ==> fs.g.InFat(fs.winsect)
  {
    hide Volume.Valid, Volume.View, Keeps, Updates, Geometry.Sound, Zeros;
    nxt := fs.GetFat(c);
    KeepsUpdates(fs.g, old(fs.Snap()), fs.Snap());
    if nxt == 0 { return nxt, Ok; }
    if nxt == INTERNAL_ERROR { return nxt, IntErr; }
    if nxt == DISK_ERROR { return nxt, DiskErr; }
    ghost var s := fs.Snap();
    res := fs.PutFat(c, 0);
    UpdatesTrans(fs.g, old(fs.Snap()), s, fs.Snap());
    if res != Ok { return; }
    ZerosUpdate(old(fs.fat), c, 0);
    s := fs.Snap();
    if fs.freeClst < fs.g.nFatEnt - 2 {
      fs.freeClst := fs.freeClst + 1;
      fs.fsiDirty := true;
      Recounted(fs.g, old(fs.Snap()), s, fs.Snap());
    }
  }

  /** Where create_chain starts to look when it is asked for a new chain. */
  function StartHint(fs: Volume): (scl: u32)
    requires fs.g.nFatEnt >= 3
    reads fs`lastClst
    ensures 1 <= scl < fs.g.nFatEnt
  {
    if fs.lastClst == 0 || fs.lastClst >= fs.g.nFatEnt then 1 else fs.lastClst
  }

  /** create_chain's search: the clusters after `scl`, wrapping around to 2, up to `scl` itself. */
  method FindFree(fs: Volume, scl: u32) returns (ncl: u32)
    requires fs.Valid() && 1 <= scl < fs.g.nFatEnt
    modifies fs`winsect, fs`wflag, fs.win, fs.disk
    ensures fs.Valid() && old(fs.disk.faults) <= fs.disk.faults
    ensures Updates(fs.g, old(fs.Snap()), fs.Snap())
    ensures ncl == DISK_ERROR ==> old(fs.disk.faults) < fs.disk.faults
    ensures fs.winsect in {old(fs.winsect), NO_SECTOR} || fs.g.InFat(fs.winsect)
    ensures fs.disk.reliable ==> ncl != DISK_ERROR
    ensures ncl == 0 ==> NoneFree(fs.fat)
    ensures ncl == INTERNAL_ERROR ==> HasOne(fs.fat)
    ensures ncl in {0, INTERNAL_ERROR, DISK_ERROR} || (fs.g.IsCluster(ncl) && fs.fat[ncl] == 0)
  {
    hide Volume.Valid, Volume.Snap, Keeps, Updates, Geometry.Sound;
    SameUpdates(fs.g, fs.Snap());
    ncl := scl;
    ghost var wrapped := false;
    while true
      invariant fs.Valid() && old(fs.disk.faults) <= fs.disk.faults
      invariant fs.winsect in {old(fs.winsect), NO_SECTOR} || fs.g.InFat(fs.winsect)
      invariant Updates(fs.g, old(fs.Snap()), fs.Snap())
      invariant 1 <= ncl < fs.g.nFatEnt
      invariant if wrapped then 2 <= ncl < scl else scl <= ncl
      invariant forall c :: scl < c < (if wrapped then fs.g.nFatEnt else ncl + 1) ==> fs.fat[c] != 0
      invariant wrapped ==> forall c :: 2 <= c <= ncl ==> fs.fat[c] != 0
      decreases !wrapped, fs.g.nFatEnt - ncl
    {
      ncl := ncl + 1;
      if ncl >= fs.g.nFatEnt {
        ncl := 2;
        if ncl > scl { return 0; }
        wrapped := true;
      }
      ghost var s := fs.Snap();
      var cs := fs.GetFat(ncl);
      KeepsUpdates(fs.g, s, fs.Snap());
      UpdatesTrans(fs.g, old(fs.Snap()), s, fs.Snap());
      if cs == 0 { return; }
      if cs == INTERNAL_ERROR || cs == DISK_ERROR {
        assert cs == INTERNAL_ERROR ==> fs.fat[ncl] == 1;
        return cs;
      }
      if ncl == scl { return 0; }
    }
  }

  /** The search for a free cluster, from the hint `scl` or (to stretch a chain) after `clst`. */
  method PickCluster(fs: Volume, clst: u32, scl: u32) returns (ncl: u32)
    requires fs.Valid() && 1 <= scl < fs.g.nFatEnt
    modifies fs`winsect, fs`wflag, fs.win, fs.disk
    ensures fs.Valid() && old(fs.disk.faults) <= fs.disk.faults
    ensures Updates(fs.g, old(fs.Snap()), fs.Snap())
    ensures ncl == DISK_ERROR ==> old(fs.disk.faults) < fs.disk.faults
    ensures fs.winsect in {old(fs.winsect), NO_SECTOR} || fs.g.InFat(fs.winsect)
    ensures fs.disk.reliable ==> ncl != DISK_ERROR
    ensures ncl == 0 ==> NoneFree(fs.fat)
    ensures ncl == INTERNAL_ERROR ==> HasOne(fs.fat)
    ensures ncl in {0, INTERNAL_ERROR, DISK_ERROR} || (fs.g.IsCluster(ncl) && fs.fat[ncl] == 0)
  {
    hide Volume.Valid, Volume.Snap, Keeps, Updates, Geometry.Sound, NoneFree;
    SameUpdates(fs.g, fs.Snap());
    var start := scl;
    if scl == clst {
      ncl := scl + 1;
      if ncl >= fs.g.nFatEnt {
        ncl := 2;
      }
      var cs := fs.GetFat(ncl);
      KeepsUpdates(fs.g, old(fs.Snap()), fs.Snap());
      if cs == INTERNAL_ERROR || cs == DISK_ERROR {
        assert cs == INTERNAL_ERROR ==> fs.fat[ncl] == 1;
        return cs;
      }
      if cs == 0 { return; }
      cs := fs.lastClst;
      if cs >= 2 && cs < fs.g.nFatEnt {
        start := cs;
      }
    }
    ghost var s := fs.Snap();
    ncl := FindFree(fs, start);
    UpdatesTrans(fs.g, old(fs.Snap()), s, fs.Snap());
  }

  /** create_chain: appends a free cluster to the list that ends at `clst` (starts a list if that is
      0), or follows the list if it does not end there. */
  method CreateChain(fs: Volume, clst: u32) returns (r: u32)
    requires fs.Valid()
    modifies fs`winsect, fs`wflag, fs`fat, fs`lastClst, fs`freeClst, fs`fsiDirty, fs.win, fs.disk
    ensures fs.Valid() && old(fs.disk.faults) <= fs.disk.faults
    ensures Updates(fs.g, old(fs.Snap()), fs.Snap())
    ensures r == DISK_ERROR ==> old(fs.disk.faults) < fs.disk.faults && KeepsOthers(old(fs.fat), fs.fat, clst)
    ensures r == DISK_ERROR && fs.g.fsType != Fat12 ==> KeepsOthers(old(fs.fat), fs.fat, -1)
    ensures r == DISK_ERROR && fs.g.IsCluster(clst) ==>
              fs.fat[clst] / 0x100 == old(fs.fat)[clst] / 0x100 && LeftAt(old(fs.fat), fs.fat, clst)
    ensures r == DISK_ERROR && fs.g.IsCluster(clst) && fs.g.IsCluster(old(fs.fat)[clst]) ==> fs.fat == old(fs.fat)
    ensures fs.winsect in {old(fs.winsect), NO_SECTOR} || fs.g.InFat(fs.winsect)
    ensures fs.disk.reliable ==> r != DISK_ERROR
    ensures r in {0, INTERNAL_ERROR} ==> fs.fat == old(fs.fat)
    ensures r == 0 ==> NoneFree(fs.fat) || fs.freeClst == 0
    ensures r == 0 && fs.g.IsCluster(clst) ==> fs.fat[clst] >= fs.g.nFatEnt
    ensures r == INTERNAL_ERROR ==> (clst != 0 && (!fs.g.IsCluster(clst) || fs.fat[clst] < 2)) || HasOne(fs.fat)
    ensures r in {0, INTERNAL_ERROR, DISK_ERROR} || fs.g.IsCluster(r)
    ensures fs.g.IsCluster(r) && clst != 0 ==> fs.g.IsCluster(clst)
    ensures fs.g.IsCluster(r) ==>
              if clst != 0 && fs.g.IsCluster(old(fs.fat)[clst])
              then r == old(fs.fat)[clst] && fs.fat == old(fs.fat)
              else old(fs.fat)[r] == 0 && (clst != 0 ==> old(fs.fat)[clst] >= fs.g.nFatEnt)
                   && fs.fat == Appended(old(fs.fat), if clst == 0 then [] else [clst], r, Eoc(fs.g.fsType))
    ensures fs.g.IsCluster(r) ==> fs.g.InFat(fs.winsect)
    ensures r != DISK_ERROR && old(CountExact(fs)) ==> CountExact(fs) && (r == 0 ==> NoneFree(fs.fat))
    ensures if fs.g.IsCluster(r) && !(clst != 0 && fs.g.IsCluster(old(fs.fat)[clst]))
            then Allotted(old(fs.freeClst), fs, r)
            else fs.lastClst == old(fs.lastClst) && fs.freeClst == old(fs.freeClst) && fs.fsiDirty == old(fs.fsiDirty)
  {
    hide Volume.Valid, Volume.Snap, Keeps, Updates, Geometry.Sound, Zeros, NoneFree, KeepsOthers;
    SameUpdates(fs.g, fs.Snap());
    NothingChanged(fs.fat, clst);
    NothingChanged(fs.fat, -1);
    ZerosNone(fs.fat);
    var scl;
    if clst == 0 {
      scl := StartHint(fs);
    } else {
      var cs := fs.GetFat(clst);
      KeepsUpdates(fs.g, old(fs.Snap()), fs.Snap());
      if cs < 2 { return INTERNAL_ERROR; }
      if cs == DISK_ERROR { return cs; }
      if cs < fs.g.nFatEnt { return cs; }
      scl := clst;
    }
    if fs.freeClst == 0 { return 0; }
    ghost var s := fs.Snap();
    r := PickCluster(fs, clst, scl);
    UpdatesTrans(fs.g, old(fs.Snap()), s, fs.Snap());
    if r == 0 || r == INTERNAL_ERROR || r == DISK_ERROR { return; }
    s := fs.Snap();
    r := TakeCluster(fs, clst, r);
    UpdatesTrans(fs.g, old(fs.Snap()), s, fs.Snap());
  }

  /** The allocation information after `ncl` has been taken: it is the next hint, and a free count that is
      known is one lower than `before`. */
  ghost predicate Allotted(before: u32, fs: Volume, ncl: u32)
    reads fs`lastClst, fs`freeClst, fs`fsiDirty
  {
    && fs.lastClst == ncl && fs.fsiDirty && before != 0
    && fs.freeClst as int == if before <= fs.g.nFatEnt - 2 then before - 1 else before
  }

  /** What a failed create_chain leaves in the entry of `clst`, which was to lead on to a free cluster. */
  ghost predicate LeftAt(fat: seq<int>, fat': seq<int>, clst: nat) {
    clst < |fat| && clst < |fat'|
    && (fat'[clst] == fat[clst]
        || exists val: u32 :: 2 <= val < |fat| && fat[val] == 0 && LeftBehind(clst, val, fat[clst], fat'[clst]))
  }

  /** The entries of allocated clusters other than `clst` are the same in both tables. */
  ghost predicate KeepsOthers(fat: seq<int>, fat': seq<int>, clst: int) {
    |fat'| == |fat| && forall c :: 0 <= c < |fat| && c != clst && fat[c] != 0 ==> fat'[c] == fat[c]
  }

  lemma NothingChanged(fat: seq<int>, clst: int)
    ensures KeepsOthers(fat, fat, clst)
  {
  }

  /** Marks `ncl` as the end of a list and links it. */
  method LinkCluster(fs: Volume, clst: u32, ncl: u32) returns (res: FResult)
    requires fs.Valid() && fs.g.IsCluster(ncl) && fs.fat[ncl] == 0
    requires clst != 0 ==> fs.g.IsCluster(clst) && fs.fat[clst] >= fs.g.nFatEnt
    modifies fs`winsect, fs`wflag, fs`fat, fs.win, fs.disk
    ensures fs.Valid() && old(fs.disk.faults) <= fs.disk.faults
    ensures Updates(fs.g, old(fs.Snap()), fs.Snap())
    ensures res == Ok || (res == DiskErr && old(fs.disk.faults) < fs.disk.faults)
    ensures KeepsOthers(old(fs.fat), fs.fat, clst)
    ensures res != Ok && fs.g.fsType != Fat12 ==> KeepsOthers(old(fs.fat), fs.fat, -1)
    ensures res != Ok && clst != 0 ==>
              fs.fat[clst] / 0x100 == old(fs.fat)[clst] / 0x100 && LeftAt(old(fs.fat), fs.fat, clst)
    ensures fs.winsect in {old(fs.winsect), NO_SECTOR} || fs.g.InFat(fs.winsect)
    ensures fs.disk.reliable ==> res == Ok
    ensures res == Ok ==> fs.g.InFat(fs.winsect)
    ensures res == Ok ==> fs.fat == Appended(old(fs.fat), if clst == 0 then [] else [clst], ncl, Eoc(fs.g.fsType))
  {
    hide Volume.Valid, Volume.Snap, Keeps, Updates, Geometry.Sound;
    res := fs.PutFat(ncl, 0xFFFF_FFFF);
    if res == Ok && clst != 0 {
      ghost var s := fs.Snap();
      res := fs.PutFat(clst, ncl);
      UpdatesTrans(fs.g, old(fs.Snap()), s, fs.Snap());
    }
  }

  /** An allocation takes one free cluster. */
  lemma OneTaken(fat: seq<int>, clst: int, ncl: int, eoc: int)
    requires 2 <= ncl < |fat| && fat[ncl] == 0 && eoc >= |fat|
    requires clst != 0 ==> 2 <= clst < |fat| && fat[clst] >= |fat|
    ensures Zeros(Appended(fat, if clst == 0 then [] else [clst], ncl, eoc)) == Zeros(fat) - 1
  {
    ZerosUpdate(fat, ncl, eoc);
    if clst != 0 {
      ZerosUpdate(fat[ncl := eoc], clst, ncl);
    }
  }

  /** The end of create_chain: the new cluster is linked and counted. */
  method TakeCluster(fs: Volume, clst: u32, ncl: u32) returns (r: u32)
    requires fs.Valid() && fs.g.IsCluster(ncl) && fs.fat[ncl] == 0 && fs.freeClst != 0
    requires clst != 0 ==> fs.g.IsCluster(clst) && fs.fat[clst] >= fs.g.nFatEnt
    modifies fs`winsect, fs`wflag, fs`fat, fs`lastClst, fs`freeClst, fs`fsiDirty, fs.win, fs.disk
    ensures fs.Valid() && old(fs.disk.faults) <= fs.disk.faults
    ensures Updates(fs.g, old(fs.Snap()), fs.Snap())
    ensures r == ncl || (r == DISK_ERROR && old(fs.disk.faults) < fs.disk.faults)
    ensures KeepsOthers(old(fs.fat), fs.fat, clst)
    ensures r == DISK_ERROR && fs.g.fsType != Fat12 ==> KeepsOthers(old(fs.fat), fs.fat, -1)
    ensures r == DISK_ERROR && clst != 0 ==>
              fs.fat[clst] / 0x100 == old(fs.fat)[clst] / 0x100 && LeftAt(old(fs.fat), fs.fat, clst)
    ensures fs.winsect in {old(fs.winsect), NO_SECTOR} || fs.g.InFat(fs.winsect)
    ensures fs.disk.reliable ==> r == ncl
    ensures r == ncl ==> fs.g.InFat(fs.winsect)
    ensures if r == ncl then Allotted(old(fs.freeClst), fs, ncl)
            else fs.lastClst == old(fs.lastClst) && fs.freeClst == old(fs.freeClst) && fs.fsiDirty == old(fs.fsiDirty)
    ensures r == ncl ==> fs.fat == Appended(old(fs.fat), if clst == 0 then [] else [clst], r, Eoc(fs.g.fsType))
    ensures r == ncl && old(CountExact(fs)) ==> CountExact(fs)
  {
    hide Volume.Valid, Volume.View, Keeps, Updates, Geometry.Sound, Zeros, KeepsOthers, Appended;
    OneTaken(fs.fat, clst, ncl, Eoc(fs.g.fsType));
    var res := LinkCluster(fs, clst, ncl);
    ghost var s := fs.Snap();
    if res == Ok {
      r := ncl;
      fs.lastClst := ncl;
      if fs.freeClst <= fs.g.nFatEnt - 2 {
        fs.freeClst := Sub32(fs.freeClst, 1);
      }
      fs.fsiDirty := true;
      Recounted(fs.g, old(fs.Snap()), s, fs.Snap());
    } else {
      r := DISK_ERROR;  // put_fat has no other failure for a valid cluster number
    }
  }

  /** f_getfree's scan of a FAT12 table, entry by entry. An entry with value 1 makes it give up. */
  method CountEntries(fs: Volume) returns (res: FResult, nfree: u32)
    requires fs.Valid()
    modifies fs`winsect, fs`wflag, fs.win, fs.disk
    ensures fs.Valid() && old(fs.disk.faults) <= fs.disk.faults
    ensures Updates(fs.g, old(fs.Snap()), fs.Snap())
    ensures res in {Ok, IntErr, DiskErr} && (res == DiskErr ==> old(fs.disk.faults) < fs.disk.faults)
    ensures res != DiskErr ==> (res == IntErr <==> HasOne(fs.fat))
    ensures res == Ok ==> nfree == Zeros(fs.fat)
  {
    hide Volume.Valid, Volume.Snap, Keeps, Updates, Geometry.Sound, Zeros;
    SameUpdates(fs.g, fs.Snap());
    nfree := 0;
    res := Ok;
    NoZeros(fs.fat);
    var clst := 2;
    while true
      invariant fs.Valid() && old(fs.disk.faults) <= fs.disk.faults
      invariant Updates(fs.g, old(fs.Snap()), fs.Snap())
      invariant 2 <= clst < fs.g.nFatEnt && res == Ok
      invariant nfree == Zeros(fs.fat[..clst])
      invariant forall c :: 2 <= c < clst ==> fs.fat[c] != 1
      decreases fs.g.nFatEnt - clst
    {
      ghost var s := fs.Snap();
      var stat := fs.GetFat(clst);
      KeepsUpdates(fs.g, s, fs.Snap());
      UpdatesTrans(fs.g, old(fs.Snap()), s, fs.Snap());
      if stat == DISK_ERROR {
        res := DiskErr;
        break;
      }
      if stat == INTERNAL_ERROR {
        assert fs.fat[clst] == 1;
        res := IntErr;
        break;
      }
      if stat == 0 {
        nfree := nfree + 1;
      }
      ZerosNext(fs.fat, clst);
      clst := clst + 1;
      if clst >= fs.g.nFatEnt {
        assert fs.fat[..clst] == fs.fat;
        break;
      }
    }
  }

  /** f_getfree's scan of a FAT16 or FAT32 table, through the bytes of its sectors. It also counts
      the entries 0 and 1. */
  method CountWords(fs: Volume) returns (res: FResult, nfree: u32)
    requires fs.Valid() && fs.g.fsType != Fat12
    modifies fs`winsect, fs`wflag, fs.win, fs.disk
    ensures fs.Valid() && old(fs.disk.faults) <= fs.disk.faults
    ensures Updates(fs.g, old(fs.Snap()), fs.Snap())
    ensures res == Ok || (res == DiskErr && old(fs.disk.faults) < fs.disk.faults)
    ensures res == Ok ==> nfree == Zeros(fs.fat) + Bit(fs.fat[0] == 0) + Bit(fs.fat[1] == 0)
  {
    hide Volume.Valid, Volume.Snap, Volume.View, Keeps, Updates, Geometry.Sound, Zeros, AllZeros, EntryIn, Loaded;
    SameUpdates(fs.g, fs.Snap());
    AllZerosSplit(fs.fat);
    EmptyZeros(fs.fat);
    ScanStart(fs);
    nfree := 0;
    ghost var e := 0;
    var clst, sect, i := fs.g.nFatEnt, fs.g.fatbase, 0;
    while true
      invariant fs.Valid() && old(fs.disk.faults) <= fs.disk.faults
      invariant Updates(fs.g, old(fs.Snap()), fs.Snap())
      invariant 1 <= clst <= fs.g.nFatEnt && e == fs.g.nFatEnt - clst
      invariant 0 <= i && ScanPosition(fs, e, sect, i)
      invariant nfree == AllZeros(fs.fat[..e]) <= e
      decreases clst
    {
      if i == 0 {
        ghost var s := fs.Snap();
        res := LoadNext(fs, e, sect);
        UpdatesTrans(fs.g, old(fs.Snap()), s, fs.Snap());
        if res != Ok { return; }
        sect := sect + 1;
      }
      NextPosition(fs, e, sect, i);
      AllZerosStep(fs.fat, e);
      if EntryIn(fs.g.fsType, fs.win[..], i) == 0 { nfree := nfree + 1; }
      i := (i + EntryWidth(fs.g.fsType)) % SS;
      clst := clst - 1;
      e := e + 1;
      if clst == 0 {
        assert fs.fat[..e] == fs.fat;
        return Ok, nfree;
      }
    }
  }

  lemma EmptyZeros(fat: seq<int>)
    ensures AllZeros(fat[..0]) == 0
  {
  }

  /** The scan is at entry `e` of the table: `i` is its offset in its sector, `sect` the next sector
      to load. */
  ghost predicate ScanPosition(fs: Volume, e: nat, sect: int, i: int)
    reads fs`winsect, fs`wflag, fs.win, fs.disk`data
  {
    var b := EntryStart(fs.g.fsType, e);
    && i == b % SS
    && if i == 0 then sect == fs.g.fatbase + b / SS else Loaded(fs, e, sect, i)
  }

  ghost predicate Loaded(fs: Volume, e: nat, sect: int, i: int)
    reads fs`winsect, fs`wflag, fs.win, fs.disk`data
  {
    var b := EntryStart(fs.g.fsType, e);
    && i == b % SS
    && sect == fs.g.fatbase + b / SS + 1
    && fs.winsect == fs.g.fatbase + b / SS < |fs.View()| && fs.win[..] == fs.View()[fs.winsect]
  }

  lemma ScanStart(fs: Volume)
    ensures ScanPosition(fs, 0, fs.g.fatbase, 0)
  {
  }

  method LoadNext(fs: Volume, ghost e: nat, sect: nat) returns (res: FResult)
    requires fs.Valid() && fs.g.fsType != Fat12 && e < fs.g.nFatEnt && ScanPosition(fs, e, sect, 0)
    modifies fs`winsect, fs`wflag, fs.win, fs.disk
    ensures fs.Valid() && old(fs.disk.faults) <= fs.disk.faults
    ensures Updates(fs.g, old(fs.Snap()), fs.Snap())
    ensures res == Ok || (res == DiskErr && old(fs.disk.faults) < fs.disk.faults)
    ensures res == Ok ==> Loaded(fs, e, sect + 1, 0)
  {
    hide Volume.Valid, Volume.Snap, Volume.View, Keeps, Updates;
    fs.Contents();
    EntryInSector(fs.g.fsType, fs.View(), fs.g.fatbase, fs.g.fsize, e);
    res := fs.MoveWindow(sect);
    KeepsUpdates(fs.g, old(fs.Snap()), fs.Snap());
  }

  lemma NextPosition(fs: Volume, e: nat, sect: int, i: nat)
    requires fs.Valid() && fs.g.fsType != Fat12 && e < fs.g.nFatEnt && Loaded(fs, e, sect, i)
    ensures i + EntryWidth(fs.g.fsType) <= SS && fs.fat[e] == EntryIn(fs.g.fsType, fs.win[..], i)
    ensures ScanPosition(fs, e + 1, sect, (i + EntryWidth(fs.g.fsType)) % SS)
  {
    hide Volume.Valid, Volume.View, EntryIn;
    fs.EntryShown(e);
    StepOffset(EntryStart(fs.g.fsType, e), EntryWidth(fs.g.fsType));
  }

  lemma StepOffset(b: nat, w: nat)
    requires 0 < w && b % SS + w <= SS
    ensures (b + w) % SS == (b % SS + w) % SS
    ensures (b + w) / SS == if b % SS + w == SS then b / SS + 1 else b / SS
    ensures (b + w) % SS == 0 <==> b % SS + w == SS
  {
  }

  /** f_getfree, past the mounting of the volume: the known number of free clusters, or a scan. The
      result is right unless the scan of a FAT16 or FAT32 table takes one of the two entries before
      the first cluster for a free cluster. */
  method GetFree(fs: Volume) returns (res: FResult, nclst: u32)
    requires fs.Valid()
    modifies fs`winsect, fs`wflag, fs`freeClst, fs`fsiDirty, fs.win, fs.disk
    ensures fs.Valid() && old(fs.disk.faults) <= fs.disk.faults
    ensures Updates(fs.g, old(fs.Snap()), fs.Snap())
    ensures res in {Ok, IntErr, DiskErr} && (res == DiskErr ==> old(fs.disk.faults) < fs.disk.faults)
    ensures res == IntErr ==> fs.g.fsType == Fat12 && HasOne(fs.fat)
    ensures res == Ok ==> nclst == fs.freeClst <= fs.g.nFatEnt
    ensures old(CountExact(fs)) && res == Ok ==>
              if old(fs.freeClst) > fs.g.nFatEnt - 2 && fs.g.fsType != Fat12
              then nclst == Zeros(fs.fat) + Bit(fs.fat[0] == 0) + Bit(fs.fat[1] == 0)
                   && (nclst == Zeros(fs.fat) <==> fs.fat[0] != 0 && fs.fat[1] != 0)
              else nclst == Zeros(fs.fat)
    ensures old(CountExact(fs)) && res == Ok && nclst == Zeros(fs.fat) ==> CountExact(fs)
    ensures res != Ok ==> fs.freeClst == old(fs.freeClst)
    ensures fs.fsiDirty == (old(fs.fsiDirty) || (res == Ok && old(fs.freeClst) > fs.g.nFatEnt - 2))
  {
    hide Volume.Valid, Volume.View, Keeps, Updates, Geometry.Sound;
    SameUpdates(fs.g, fs.Snap());
    if fs.freeClst <= fs.g.nFatEnt - 2 {
      return Ok, fs.freeClst;
    }
    var nfree;
    if fs.g.fsType == Fat12 {
      res, nfree := CountEntries(fs);
    } else {
      res, nfree := CountWords(fs);
    }
    if res == Ok {
      ghost var s := fs.Snap();
      nclst := nfree;
      fs.freeClst := nfree;
      fs.fsiDirty := true;
      Recounted(fs.g, old(fs.Snap()), s, fs.Snap());
    } else {
      nclst := 0;
    }
  }
}
