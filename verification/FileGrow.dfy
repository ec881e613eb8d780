/** Following or stretching the chain of a file that is being written. */
module FileGrow {
  import opened Words
  import opened FatLayout
  import opened Geometry
  import opened Volume
  import opened Chains
  import opened Allocator
  import opened FileMap
  import opened FileState
  import opened Effects
  import opened LinkMap
  import opened Files
  import opened FileRead
  import Arith

  /** The end mark of the chain would still be one if its lower eight bits were any others. */
  ghost predicate EndSafe(g: Geometry, fat: seq<int>, chain: seq<int>) {
    && g.nFatEnt <= 0xF00
    && (chain != [] ==> 0 <= chain[|chain| - 1] < |fat| && fat[chain[|chain| - 1]] / 0x100 * 0x100 >= g.nFatEnt)
  }

  /** A transfer that fails while the chain is being stretched does no harm to it. On FAT12 it may leave
      half an entry in place of the end mark: that is harmless if the table has at most 0xF00 entries
      (and the end mark, if the file has one of its own, is a usual one). */
  ghost predicate LookAheadSafe(fp: File)
    reads fp`chain, fp.fs`fat
  {
    fp.fs.g.fsType == Fat12 ==> fp.fs.disk.reliable || EndSafe(fp.fs.g, fp.fs.fat, fp.chain)
  }

  /** A chain has only been stretched as far as it takes to get past position `pos`. */
  ghost predicate GrownFor(g: Geometry, c0: seq<int>, c1: seq<int>, pos: int) {
    |c0| <= |c1| && (|c0| < |c1| ==> ClusterPos(g, |c1| - 1) < pos)
  }

  lemma GrownTrans(g: Geometry, c0: seq<int>, c1: seq<int>, c2: seq<int>, pos: int, pos': int)
    requires GrownFor(g, c0, c1, pos) && GrownFor(g, c1, c2, pos') && pos <= pos'
    ensures GrownFor(g, c0, c2, pos')
  {
    hide ClusterPos;
  }

  lemma GrownFurther(g: Geometry, c0: seq<int>, c1: seq<int>, pos: int, pos': int)
    requires GrownFor(g, c0, c1, pos) && pos <= pos'
    ensures GrownFor(g, c0, c1, pos')
  {
    hide ClusterPos;
  }

  lemma NotGrown(g: Geometry, c: seq<int>, pos: int)
    ensures GrownFor(g, c, c, pos)
  {
  }

  /** The chain still has an end mark where it ends. */
  ghost predicate EndIntact(fat: seq<int>, chain: seq<int>) {
    chain != [] ==> 0 <= chain[|chain| - 1] < |fat| && fat[chain[|chain| - 1]] >= |fat|
  }

  lemma ProperEnd(fat: seq<int>, chain: seq<int>)
    requires IsChainOrEmpty(fat, chain)
    ensures EndIntact(fat, chain)
  {
  }

  /** After a failed attempt to stretch it a chain is a chain exactly if it still has its end mark. */
  lemma EndDecides(fat: seq<int>, fat': seq<int>, chain: seq<int>, k: int, clst: int)
    requires IsChainOrEmpty(fat, chain) && -1 <= k < |chain|
    requires if k == -1 then chain == [] else clst == chain[k]
    requires KeepsOthers(fat, fat', clst) && (k + 1 < |chain| ==> fat' == fat)
    ensures IsChainOrEmpty(fat', chain) <==> EndIntact(fat', chain)
  {
    var l := |chain| - 1;
    if k == l && k >= 0 {
      forall i | 0 <= i < l
        ensures fat'[chain[i]] == fat[chain[i]]
      {
        ChainAcyclic(fat, chain, i, l);
        AllocatedInChain(fat, chain, chain[i]);
      }
    }
  }

  /** A usual end mark survives. */
  lemma EndKept(g: Geometry, fat: seq<int>, fat': seq<int>, chain: seq<int>, k: int, clst: int)
    requires IsChainOrEmpty(fat, chain) && |fat| == |fat'| == g.nFatEnt && EndSafe(g, fat, chain) && -1 <= k < |chain|
    requires if k == -1 then chain == [] else clst == chain[k]
    requires k >= 0 && k + 1 == |chain| ==> fat'[clst] / 0x100 == fat[clst] / 0x100
    requires k + 1 < |chain| ==> fat' == fat
    ensures EndIntact(fat', chain) && EndSafe(g, fat', chain)
  {
  }

  /** An end mark that is left alone. */
  lemma EndUntouched(fat: seq<int>, fat': seq<int>, chain: seq<int>)
    requires IsChainOrEmpty(fat, chain) && KeepsOthers(fat, fat', -1)
    ensures EndIntact(fat', chain)
  {
  }

  /** A freshly appended end mark is a usual one. */
  lemma NewEndSafe(g: Geometry, fat: seq<int>, fat': seq<int>, chain: seq<int>, clst: int, r: int)
    requires IsChainOrEmpty(fat, chain) && 2 <= r < |fat| && fat[r] == 0 && |fat| == g.nFatEnt
    requires if chain == [] then clst == 0 else clst == chain[|chain| - 1]
    requires fat' == Appended(fat, if clst == 0 then [] else [clst], r, Eoc(g.fsType))
              && (clst != 0 ==> 0 <= clst < |fat|)
    ensures g.fsType == Fat12 && EndSafe(g, fat, chain) ==> EndSafe(g, fat', chain + [r])
  {
    if chain != [] && r == clst {
      AllocatedInChain(fat, chain, r);
    }
  }

  /** On FAT12 put_fat may fail between the two sectors that hold the entry of the last cluster of `chain`
      when it is to lead on to the free cluster `val`. */
  ghost predicate MayBreakOff(fat: seq<int>, chain: seq<int>, val: u32) {
    && chain != [] && chain[|chain| - 1] >= 0 && Straddles(chain[|chain| - 1])
    && chain[|chain| - 1] < |fat| && fat[chain[|chain| - 1]] == 0xFFF
    && 2 <= val < |fat| && fat[val] == 0
  }

  /** The table after that. */
  ghost function BrokenOff(fat: seq<int>, chain: seq<int>, val: u32): (fat': seq<int>)
    requires MayBreakOff(fat, chain, val)
    ensures |fat'| == |fat|
  {
    var c := chain[|chain| - 1];
    fat[c := HalfWritten(c, val, 0xFFF)]
  }

  /** From `fat` to `fat'` a failed attempt to stretch the chain has destroyed its end mark: the entry straddles
      two sectors, and the first of them has got its part of the number of a free cluster. */
  ghost predicate HasBrokenOff(fat: seq<int>, chain: seq<int>, fat': seq<int>) {
    && chain != [] && 0 <= chain[|chain| - 1] < |fat| == |fat'|
    && fat[chain[|chain| - 1]] >= |fat| > fat'[chain[|chain| - 1]]
    && LeftAt(fat, fat', chain[|chain| - 1])
  }

  /** For a usual end mark that is what SurviveExactly is about. */
  lemma BrokenOffSo(fat: seq<int>, chain: seq<int>, fat': seq<int>)
    requires HasBrokenOff(fat, chain, fat') && fat[chain[|chain| - 1]] == 0xFFF
    ensures exists val: u32 :: MayBreakOff(fat, chain, val)
              && fat'[chain[|chain| - 1]] == BrokenOff(fat, chain, val)[chain[|chain| - 1]]
  {
    var c := chain[|chain| - 1];
    var val: u32 :| 2 <= val < |fat| && fat[val] == 0 && LeftBehind(c, val, fat[c], fat'[c]);
    assert MayBreakOff(fat, chain, val);
  }

  /** The chains of every table of `n` entries survive that. */
  ghost predicate Survive(n: nat) {
    forall fat: seq<int>, chains: seq<seq<int>>, i: nat, val: u32 ::
      |fat| == n && Consists(fat, chains) && i < |chains| && MayBreakOff(fat, chains[i], val) ==>
        IsChain(BrokenOff(fat, chains[i], val), chains[i])
  }

  /** They do if and only if the table has at most 0xF00 entries. */
  lemma SurviveExactly(n: nat)
    requires n <= Eoc(Fat12)
    ensures Survive(n) <==> n <= 0xF00
  {
    if n <= 0xF00 {
      forall fat: seq<int>, chains: seq<seq<int>>, i: nat, val: u32
        | |fat| == n && Consists(fat, chains) && i < |chains| && MayBreakOff(fat, chains[i], val)
        ensures IsChain(BrokenOff(fat, chains[i], val), chains[i])
      {
        ChainSurvives(fat, chains[i], val);
      }
    } else {
      RunsIntoOther(n);
    }
  }

  lemma ChainSurvives(fat: seq<int>, chain: seq<int>, val: u32)
    requires IsChainOrEmpty(fat, chain) && MayBreakOff(fat, chain, val) && |fat| <= 0xF00
    ensures IsChain(BrokenOff(fat, chain, val), chain)
  {
    var l := |chain| - 1;
    forall i | 0 <= i < l
      ensures chain[i] != chain[l]
    {
      ChainAcyclic(fat, chain, i, l);
    }
  }

  /** A table of `n` entries with two chains of one cluster each. */
  function TwoChains(n: nat, a: int, b: int): seq<int> {
    seq(n, c => if c < 2 || c == a || c == b then 0xFFF else 0)
  }

  lemma TwoChainsConsist(n: nat, a: int, b: int)
    requires 2 <= a < n && 2 <= b < n && a != b && n <= 0xFFF
    ensures Consists(TwoChains(n, a, b), [[a], [b]])
  {
    var fat, chains := TwoChains(n, a, b), [[a], [b]];
    forall c | 2 <= c < n && fat[c] != 0
      ensures Covered(chains, c)
    {
      assert a in chains[0] && b in chains[1];
    }
  }

  /** With more there is a table on which the half-written end mark of one file is a cluster of another:
      what get_fat and create_chain then follow is a chain that goes on in the other file. */
  lemma RunsIntoOther(n: nat)
    requires 0xF00 < n <= Eoc(Fat12)
    ensures exists fat: seq<int>, chains: seq<seq<int>>, val: u32 ::
              && |fat| == n && Consists(fat, chains) && |chains| == 2 && MayBreakOff(fat, chains[0], val)
              && !IsChain(BrokenOff(fat, chains[0], val), chains[0])
              && IsChain(BrokenOff(fat, chains[0], val), chains[0] + chains[1])
  {
    hide Consists;
    var fat, chains, val: u32 := TwoChains(n, 682, 0xF00), [[682], [0xF00]], 0x300;
    TwoChainsConsist(n, 682, 0xF00);
    assert MayBreakOff(fat, chains[0], val);
    assert BrokenOff(fat, chains[0], val)[682] == 0xF00;
    assert IsChain(BrokenOff(fat, chains[0], val), chains[0] + chains[1]);
  }

  /** A failed attempt to stretch the chain, as the file object sees it. */
  lemma StretchFailed(fp: File, s: Snapshot, w: u32, k: int, clst: int)
    requires fp.fs.Valid() && fp.buf.Length == SS && fp.buf != fp.fs.win && |fp.content| == fp.objsize
    requires IsChainOrEmpty(s.fat, fp.chain) && fp.sclust == (if fp.chain == [] then 0 else fp.chain[0])
    requires Holds(fp.fs.g, s.view, fp.chain, fp.dirty, fp.sect, fp.buf[..], fp.content)
    requires Updates(fp.fs.g, s, fp.fs.Snap()) && |s.fat| == fp.fs.g.nFatEnt
    requires !InFile(fp.fs.g, fp.chain, w) && (fp.fs.winsect in {w, NO_SECTOR} || fp.fs.g.InFat(fp.fs.winsect))
    requires -1 <= k < |fp.chain| && if k == -1 then fp.chain == [] else clst == fp.chain[k]
    requires KeepsOthers(s.fat, fp.fs.fat, clst) && (fp.fs.g.fsType != Fat12 ==> KeepsOthers(s.fat, fp.fs.fat, -1))
    requires k >= 0 && k + 1 == |fp.chain| ==> fp.fs.fat[clst] / 0x100 == s.fat[clst] / 0x100
    requires k + 1 < |fp.chain| ==> fp.fs.fat == s.fat
    ensures EndIntact(fp.fs.fat, fp.chain) ==> fp.Ready()
    ensures k + 1 < |fp.chain| ==> EndIntact(fp.fs.fat, fp.chain)
    ensures fp.fs.g.fsType != Fat12 || EndSafe(fp.fs.g, s.fat, fp.chain) ==> EndIntact(fp.fs.fat, fp.chain)
    ensures fp.fs.g.fsType == Fat12 && EndSafe(fp.fs.g, s.fat, fp.chain) ==> EndSafe(fp.fs.g, fp.fs.fat, fp.chain)
  {
    hide Volume.Valid, Volume.View, Volume.Snap, Holds, InFile, Updates, KeepsOthers, IsChain, IsChainOrEmpty, EndSafe,
         EndIntact, File.Ready;
    EndDecides(s.fat, fp.fs.fat, fp.chain, k, clst);
    ProperEnd(s.fat, fp.chain);
    if fp.fs.g.fsType != Fat12 {
      EndUntouched(s.fat, fp.fs.fat, fp.chain);
    } else if EndSafe(fp.fs.g, s.fat, fp.chain) {
      EndKept(fp.fs.g, s.fat, fp.fs.fat, fp.chain, k, clst);
    }
    if EndIntact(fp.fs.fat, fp.chain) {
      ReadyAgain(fp, s, w);
    }
  }

  /** Half an end mark and half a cluster number are not the mark of a free cluster: such an entry has a number
      above 0x100, and so has its end mark. */
  lemma NotFreed(fat: seq<int>, fat': seq<int>, c: nat)
    requires LeftAt(fat, fat', c) && fat[c] >= |fat|
    ensures fat'[c] != 0
  {
    if fat'[c] != fat[c] {
      assert fat[c] / 0x100 == fat'[c] / 0x100 > 0;
    }
  }

  lemma StillHeld(s: Snapshot, s': Snapshot, chain: seq<int>, k: int, clst: int)
    requires IsChainOrEmpty(s.fat, chain) && -1 <= k < |chain| && if k == -1 then chain == [] else clst == chain[k]
    requires KeepsOthers(s.fat, s'.fat, clst) && (k + 1 < |chain| ==> s'.fat == s.fat)
    requires k >= 0 ==> 0 <= clst && LeftAt(s.fat, s'.fat, clst)
    ensures Held(s, chain, s', chain)
  {
    forall c | c in chain && 0 <= c < |s.fat| && s.fat[c] != 0
      ensures 0 <= c < |s'.fat| && s'.fat[c] != 0
    {
      if c == clst && k + 1 == |chain| { NotFreed(s.fat, s'.fat, c); }
    }
  }

  /** create_chain on behalf of a file, for the cluster after the one with index `k` (the first one
      for `k` == -1): `clst` is the cluster with index `k`, or 0. */
  method StretchChain(fp: File, clst: u32, ghost k: int) returns (r: u32)
    requires fp.Ready() && -1 <= k < |fp.chain|
    requires if k == -1 then clst == 0 && fp.chain == [] else clst == fp.chain[k]
    modifies fp`chain, fp`sclust
    modifies fp.fs`winsect, fp.fs`wflag, fp.fs`fat, fp.fs`lastClst, fp.fs`freeClst, fp.fs`fsiDirty, fp.fs.win,
             fp.fs.disk
    ensures fp.fs.Valid() && old(fp.fs.disk.faults) <= fp.fs.disk.faults
    ensures Advances(fp.fs.g, old(fp.fs.Snap()), old(fp.chain), fp.fs.Snap(), fp.chain)
    ensures Updates(fp.fs.g, old(fp.fs.Snap()), fp.fs.Snap())
    ensures r == DISK_ERROR ==> old(fp.fs.disk.faults) < fp.fs.disk.faults
    ensures fp.fs.disk.reliable ==> r != DISK_ERROR
    ensures r != DISK_ERROR || EndIntact(fp.fs.fat, fp.chain) ==> fp.Ready()
    ensures fp.fs.g.fsType != Fat12 || old(LookAheadSafe(fp)) || k + 1 < |fp.chain| ==> EndIntact(fp.fs.fat, fp.chain)
    ensures r == DISK_ERROR && k >= 0 ==> LeftAt(old(fp.fs.fat), fp.fs.fat, clst)
    ensures old(LookAheadSafe(fp)) ==> LookAheadSafe(fp)
    ensures if r in {0, INTERNAL_ERROR, DISK_ERROR} then fp.chain == old(fp.chain)
            else k + 1 < |fp.chain| && r == fp.chain[k + 1]
                 && (fp.chain == old(fp.chain) || (k + 1 == |old(fp.chain)| && fp.chain == old(fp.chain) + [r as int]))
    ensures r == 0 ==> k + 1 == |fp.chain| && (NoneFree(fp.fs.fat) || fp.fs.freeClst == 0)
    ensures r == INTERNAL_ERROR ==> HasOne(fp.fs.fat)
    ensures r != DISK_ERROR && old(CountExact(fp.fs)) ==> CountExact(fp.fs) && (r == 0 ==> NoneFree(fp.fs.fat))
  {
    hide Volume.Valid, Volume.View, Volume.Snap, Holds, InFile, Distinct, Spares, Updates, KeepsOthers, NoneFree,
         CountExact, Appended, IsChain, Mappable, File.Ready, IsChainOrEmpty, EndSafe, CsizeOk, SectorCount, Advances,
         LeftAt, Held, Exchanges;
    fp.Parts();
    ghost var s, w, chain, eoc := fp.fs.Snap(), fp.fs.winsect, fp.chain, Eoc(fp.fs.g.fsType);
    LinkOrEnd(s.fat, chain, k);
    r := CreateChain(fp.fs, clst);
    if clst == 0 && r != 0 && r != INTERNAL_ERROR && r != DISK_ERROR {
      fp.sclust := r;
    }
    Frame(fp);
    if r == DISK_ERROR {
      SparesFat(fp.fs.g, s, fp.fs.Snap(), chain, clst);
      StillHeld(s, fp.fs.Snap(), chain, k, clst);
      AdvancesFailed(fp.fs.g, s, fp.fs.Snap(), chain);
      StretchFailed(fp, s, w, k, clst);
    } else if r in {0, INTERNAL_ERROR} || k + 1 < |chain| {
      OthersKept(s.fat);
      SparesFat(fp.fs.g, s, fp.fs.Snap(), chain, -1);
      AdvancesSame(fp.fs.g, s, fp.fs.Snap(), chain);
      ReadyAgain(fp, s, w);
    } else {
      Grew(fp.fs.g, s, fp.fs.Snap(), chain, k, clst, r, eoc);
      AdvancesMore(fp.fs.g, s, fp.fs.Snap(), chain, r);
      NewEndSafe(fp.fs.g, s.fat, fp.fs.fat, chain, clst, r);
      fp.chain := chain + [r];
      ReadyGrown(fp, s, chain);
    }
    if r != DISK_ERROR {
      fp.Parts();
      ProperEnd(fp.fs.fat, fp.chain);
    }
  }

  /** What create_chain finds at a cluster of the chain. */
  lemma LinkOrEnd(fat: seq<int>, chain: seq<int>, k: int)
    requires IsChainOrEmpty(fat, chain) && -1 <= k < |chain|
    ensures k >= 0 ==> 2 <= chain[k] < |fat| && chain[k] in chain && fat[chain[k]] >= 2
    ensures k >= 0 && k + 1 < |chain| ==> fat[chain[k]] == chain[k + 1] && 2 <= chain[k + 1] < |fat|
    ensures k >= 0 && k + 1 == |chain| ==> fat[chain[k]] >= |fat|
  {
    if 0 <= k && k + 1 < |chain| {
      assert fat[chain[k]] == chain[k + 1];
    }
  }

  lemma Frame(fp: File)
    requires fp.fs.Valid()
    ensures fp.fs.g.FatsEnd() <= fp.fs.g.database
  {
    fp.fs.Contents();
  }

  lemma OthersKept(fat: seq<int>)
    ensures KeepsOthers(fat, fat, -1)
  {
  }

  /** The new cluster continues the chain, and nothing else has changed hands. */
  lemma Grew(g: Geometry, s: Snapshot, s': Snapshot, chain: seq<int>, k: int, clst: int, r: int, eoc: int)
    requires IsChainOrEmpty(s.fat, chain) && k + 1 == |chain| && 2 <= r < |s.fat| && s.fat[r] == 0 && eoc >= |s.fat|
    requires if k == -1 then clst == 0 else clst == chain[k] && 2 <= clst < |s.fat|
    requires s'.fat == Appended(s.fat, if clst == 0 then [] else [clst], r, eoc)
    requires g.FatsEnd() <= g.database && Updates(g, s, s') && s.faults <= s'.faults
    ensures IsChain(s'.fat, chain + [r]) && IsChainOrEmpty(s'.fat, chain + [r])
    ensures Spares(g, s, s', chain) && Exchanges(s.fat, chain, s'.fat, chain + [r])
  {
    hide Updates, Spares;
    ChainGrows(s.fat, chain, r, eoc);
    assert s'.fat == Appended(s.fat, chain, r, eoc);
    var c := if k == -1 then -1 else chain[k];
    assert KeepsOthers(s.fat, s'.fat, c);
    SparesFat(g, s, s', chain, c);
  }

  /** The file object is in order after its chain has grown by a cluster. */
  lemma ReadyGrown(fp: File, s: Snapshot, chain: seq<int>)
    requires fp.fs.Valid() && fp.buf.Length == SS && fp.buf != fp.fs.win && |fp.content| == fp.objsize
    requires IsChain(fp.fs.fat, fp.chain) && fp.chain != [] && fp.sclust == fp.chain[0]
    requires chain <= fp.chain
    requires Holds(fp.fs.g, s.view, chain, fp.dirty, fp.sect, fp.buf[..], fp.content)
    requires Updates(fp.fs.g, s, fp.fs.Snap()) && fp.fs.g.InFat(fp.fs.winsect)
    ensures fp.Ready()
  {
    hide Volume.Valid, Volume.View, Holds, InFile, IsChain;
    fp.fs.Contents();
    ChainMappable(fp.fs, fp.chain);
    HoldsOutsideFats(fp.fs.g, s.view, fp.fs.View(), chain, fp.dirty, fp.sect, fp.buf[..], fp.content);
    AfterGrowth(fp.fs.g, fp.fs.View(), chain, fp.chain, fp.dirty, fp.sect, fp.buf[..], fp.content);
    if InFile(fp.fs.g, fp.chain, fp.fs.winsect) {
      InFileBounds(fp.fs.g, fp.fs.View(), fp.chain, fp.fs.winsect);
    }
  }

  /** The look-up that f_write uses at every cluster boundary: the cluster that follows the one with
      index `k`, from the link map or by following or stretching the chain. */
  method NextOrNew(fp: File, prev: u32, ghost k: nat, ofs: u32) returns (r: u32)
    requires fp.Ready() && fp.Mapped() && k < |fp.chain| && prev == fp.chain[k]
    requires ofs / SS / fp.fs.g.csize == k + 1
    modifies fp`chain, fp`sclust
    modifies fp.fs`winsect, fp.fs`wflag, fp.fs`fat, fp.fs`lastClst, fp.fs`freeClst, fp.fs`fsiDirty, fp.fs.win,
             fp.fs.disk
    ensures fp.fs.Valid() && old(fp.fs.disk.faults) <= fp.fs.disk.faults
    ensures Advances(fp.fs.g, old(fp.fs.Snap()), old(fp.chain), fp.fs.Snap(), fp.chain)
    ensures r == DISK_ERROR ==> old(fp.fs.disk.faults) < fp.fs.disk.faults
    ensures fp.fs.disk.reliable ==> r != DISK_ERROR
    ensures r != DISK_ERROR || EndIntact(fp.fs.fat, fp.chain) ==> fp.Ready() && fp.Mapped()
    ensures fp.fs.g.fsType != Fat12 || old(LookAheadSafe(fp)) || k + 1 < |fp.chain| ==> EndIntact(fp.fs.fat, fp.chain)
    ensures r == DISK_ERROR ==> LeftAt(old(fp.fs.fat), fp.fs.fat, prev)
    ensures old(LookAheadSafe(fp)) ==> LookAheadSafe(fp)
    ensures if r in {0, INTERNAL_ERROR, DISK_ERROR} then fp.chain == old(fp.chain)
            else k + 1 < |fp.chain| && r == fp.chain[k + 1] && (k + 1 < |old(fp.chain)| ==> fp.chain == old(fp.chain))
                 && (fp.chain == old(fp.chain) || |fp.chain| == k + 2)
    ensures r == 0 ==> k + 1 == |fp.chain| && (fp.cltbl != null || NoneFree(fp.fs.fat) || fp.fs.freeClst == 0)
    ensures r == INTERNAL_ERROR ==> HasOne(fp.fs.fat)
    ensures r != DISK_ERROR && old(CountExact(fp.fs)) ==> CountExact(fp.fs)
  {
    hide LeftAt, Volume.Valid, Volume.View, Volume.Snap, Holds, InFile, Distinct, Advances, NoneFree, CountExact,
         IsChain, Mappable, File.Ready, IsChainOrEmpty, LookAheadSafe, EndIntact;
    fp.Parts();
    ProperEnd(fp.fs.fat, fp.chain);
    if fp.cltbl != null {
      AdvancesNot(fp.fs.g, fp.fs.Snap(), fp.chain);
      r := ClmtClust(fp.fs.g, fp.cltbl, ofs, fp.mapped);
    } else {
      r := StretchChain(fp, prev, k);
    }
  }

  /** Why there may be no next cluster: no free one is known, or the link map, which cannot be extended, has
      come to its end. */
  ghost predicate OutOfRoom(fp: File)
    reads fp`cltbl, fp`chain, fp.fs`fat, fp.fs`freeClst
  {
    (fp.cltbl != null && fp.chain != []) || NoneFree(fp.fs.fat) || fp.fs.freeClst == 0
  }

  /** The file pointer stands behind the last cluster of the file. */
  ghost predicate AtEnd(fp: File)
    reads fp`fptr, fp`chain
  {
    fp.fptr == SectorCount(fp.fs.g, fp.chain) * SS
  }

  /** Then all its clusters lie before the file pointer. */
  lemma GrownToEnd(fp: File, c0: seq<int>, pos: int)
    requires fp.fs.g.csize > 0 && GrownFor(fp.fs.g, c0, fp.chain, pos) && (AtEnd(fp) || pos <= fp.fptr)
    ensures GrownFor(fp.fs.g, c0, fp.chain, fp.fptr)
  {
    if |c0| < |fp.chain| && AtEnd(fp) {
      var n := |fp.chain| - 1;
      assert (n + 1) * (fp.fs.g.csize * SS) == n * (fp.fs.g.csize * SS) + fp.fs.g.csize * SS;
      assert SectorCount(fp.fs.g, fp.chain) * SS == (n + 1) * (fp.fs.g.csize * SS);
    }
  }

  /** The outcome of entering the next cluster. */
  datatype Entry = Entered | Full | Failed(res: FResult)

  /** The start of a pass through f_write's loop on a sector boundary: makes `fp.clust` the cluster of
      the next byte, allocating it if necessary. */
  method EnterOrNew(fp: File) returns (e: Entry)
    requires fp.Valid() && fp.Mapped() && fp.fptr % SS == 0
    modifies fp`clust, fp`chain, fp`sclust
    modifies fp.fs`winsect, fp.fs`wflag, fp.fs`fat, fp.fs`lastClst, fp.fs`freeClst, fp.fs`fsiDirty, fp.fs.win,
             fp.fs.disk
    ensures fp.fs.Valid() && old(fp.fs.disk.faults) <= fp.fs.disk.faults
    ensures Advances(fp.fs.g, old(fp.fs.Snap()), old(fp.chain), fp.fs.Snap(), fp.chain)
    ensures GrownFor(fp.fs.g, old(fp.chain), fp.chain, fp.fptr + 1)
    ensures e == Entered ==> fp.Ready() && fp.Mapped() && AtSector(fp, fp.fptr / SS)
    ensures e == Full ==> fp.Valid() && fp.Mapped() && OutOfRoom(fp) && AtEnd(fp) && fp.chain == old(fp.chain)
    ensures e.Failed? ==>
              (e.res == IntErr && HasOne(fp.fs.fat)) || (e.res == DiskErr && old(fp.fs.disk.faults) < fp.fs.disk.faults)
    ensures old(LookAheadSafe(fp)) ==> LookAheadSafe(fp)
    ensures (e.Failed? ==> e.res == IntErr) && old(CountExact(fp.fs)) ==> CountExact(fp.fs)
  {
    hide Volume.Valid, Volume.View, Volume.Snap, Holds, InFile, Distinct, Advances, NoneFree, CountExact, IsChain,
         Mappable, File.Ready, File.Mapped, IsChainOrEmpty, AtSector, BufferAt, CsizeOk, CursorIndex, LookAheadSafe,
         ClusterPos;
    fp.Parts();
    fp.Capacity();
    AdvancesNot(fp.fs.g, fp.fs.Snap(), fp.chain);
    ghost var n := fp.fptr / SS;
    ghost var k := n / fp.fs.g.csize;
    NotGrown(fp.fs.g, fp.chain, fp.fptr + 1);
    BoundaryIndex(fp.fs.g, fp.chain, n, k);
    var csect := fp.fptr / SS % fp.fs.g.csize;
    if csect == 0 {
      BoundaryPos(fp.fs.g, fp.fptr);
      var clst := CrossBoundary(fp, k);
      if clst == 0 {
        AllUsed(fp.fs.g, fp.chain, n);
        return Full;
      }
      if clst == INTERNAL_ERROR { return Failed(IntErr); }
      if clst == DISK_ERROR { return Failed(DiskErr); }
      fp.clust := clst;
    }
    e := Entered;
    EnteredAt(fp, n, k);
  }

  /** The cluster with index `k`, whose start the file pointer has reached. */
  method CrossBoundary(fp: File, ghost k: nat) returns (clst: u32)
    requires fp.Ready() && fp.Mapped() && CursorAt(fp.fs.g, fp.chain, fp.fptr, fp.clust)
    requires k == fp.fptr / SS / fp.fs.g.csize <= |fp.chain|
              && (fp.fptr > 0 ==> k > 0 && CursorIndex(fp.fs.g, fp.fptr) == k - 1)
    modifies fp`chain, fp`sclust
    modifies fp.fs`winsect, fp.fs`wflag, fp.fs`fat, fp.fs`lastClst, fp.fs`freeClst, fp.fs`fsiDirty, fp.fs.win,
             fp.fs.disk
    ensures fp.fs.Valid() && old(fp.fs.disk.faults) <= fp.fs.disk.faults
    ensures Advances(fp.fs.g, old(fp.fs.Snap()), old(fp.chain), fp.fs.Snap(), fp.chain)
    ensures clst == DISK_ERROR ==> old(fp.fs.disk.faults) < fp.fs.disk.faults
    ensures clst != DISK_ERROR ==> fp.Ready() && fp.Mapped()
    ensures old(LookAheadSafe(fp)) ==> LookAheadSafe(fp)
    ensures if clst in {0, INTERNAL_ERROR, DISK_ERROR} then fp.chain == old(fp.chain)
            else k < |fp.chain| && clst == fp.chain[k]
                 && (fp.chain == old(fp.chain) || (k == |old(fp.chain)| && |fp.chain| == k + 1))
    ensures clst == 0 ==> k == |fp.chain| && OutOfRoom(fp)
    ensures clst == INTERNAL_ERROR ==> HasOne(fp.fs.fat)
    ensures clst != DISK_ERROR && old(CountExact(fp.fs)) ==> CountExact(fp.fs)
  {
    hide Volume.Valid, Volume.View, Volume.Snap, Holds, InFile, Distinct, Advances, NoneFree, CountExact, IsChain,
         Mappable, File.Ready, IsChainOrEmpty, CursorIndex, LookAheadSafe;
    fp.Parts();
    AdvancesNot(fp.fs.g, fp.fs.Snap(), fp.chain);
    if fp.fptr == 0 {
      clst := fp.sclust;
      if clst == 0 {
        clst := StretchChain(fp, 0, -1);
      }
    } else {
      clst := NextOrNew(fp, fp.clust, k - 1, fp.fptr);
    }
  }

  lemma EnteredAt(fp: File, n: int, k: int)
    requires fp.fs.g.csize > 0 && AllClusters(fp.fs.g, fp.chain)
    requires 0 <= n && k == n / fp.fs.g.csize && 0 <= k < |fp.chain| && fp.clust == fp.chain[k]
    ensures AtSector(fp, n)
  {
    SectorOfCluster(fp.fs.g, fp.chain, n, k);
  }

  lemma BoundaryIndex(g: Geometry, chain: seq<int>, n: int, k: int)
    requires g.csize > 0 && 0 <= n <= SectorCount(g, chain) && k == n / g.csize
    ensures 0 <= k <= |chain|
    ensures n > 0 ==> CursorIndex(g, n * SS) == if n % g.csize == 0 then k - 1 else k
    ensures n % g.csize == 0 && n > 0 ==> k > 0
    ensures n % g.csize != 0 ==> k < |chain|
  {
    ClusterBoundary(g, chain, n);
    if n > 0 { CursorStep(g, n); }
  }

  lemma BoundaryPos(g: Geometry, pos: nat)
    requires g.csize > 0 && pos % SS == 0 && pos / SS % g.csize == 0
    ensures ClusterPos(g, pos / SS / g.csize) == pos
  {
    assert pos / SS / g.csize * (g.csize * SS) == pos / SS / g.csize * g.csize * SS;
  }

  lemma AllUsed(g: Geometry, chain: seq<int>, n: int)
    requires g.csize > 0 && 0 <= n && n % g.csize == 0 && n / g.csize == |chain|
    ensures n == SectorCount(g, chain)
  {
  }

  lemma SectorOfCluster(g: Geometry, chain: seq<int>, n: int, k: int)
    requires g.csize > 0 && 0 <= n && k == n / g.csize && k < |chain|
    ensures n < SectorCount(g, chain)
  {
    Arith.MulMono(k + 1, |chain|, g.csize);
    assert n == k * g.csize + n % g.csize < (k + 1) * g.csize;
  }

  lemma ClusterBoundary(g: Geometry, chain: seq<int>, n: int)
    requires g.csize > 0 && 0 <= n <= SectorCount(g, chain)
    ensures 0 <= n / g.csize <= |chain|
    ensures n % g.csize != 0 ==> n / g.csize < |chain|
    ensures n % g.csize == 0 && n > 0 ==> n / g.csize > 0
  {
    var k, r := n / g.csize, n % g.csize;
    assert n == k * g.csize + r;
    assert (|chain| + 1) * g.csize == |chain| * g.csize + g.csize;
    if k > |chain| {
      Arith.MulMono(|chain| + 1, k, g.csize);
    }
  }
}
