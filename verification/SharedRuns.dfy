/** Any number of open files on one volume, used in turn: each of them behaves like a plain sequence of
    bytes of its own. */
module SharedRuns {
  import opened Words
  import opened FatLayout
  import opened Geometry
  import opened Volume
  import opened Chains
  import opened Allocator
  import opened FileMap
  import opened FileState
  import opened Effects
  import opened Files
  import opened FileRead
  import opened FileGrow
  import opened FileWrite
  import opened FileFollow
  import opened FileSeek
  import opened FileTruncate
  import opened PlainFiles
  import opened PlainScenes
  import opened FileRuns
  import Arith

  // ------------------------------------------------------------------------------------------
  // The cluster of the sector in the buffer

  /** The cluster of device sector `sect`; 0 for none. */
  function Home(g: Geometry, sect: int): int {
    if sect == 0 || g.csize == 0 then 0 else 2 + (sect - g.database) / g.csize
  }

  lemma HomeIs(g: Geometry, sect: nat, c: nat)
    requires g.csize > 0 && sect != 0 && g.database <= sect && 2 <= c
    ensures g.ClusterSector(c) <= sect < g.ClusterSector(c) + g.csize <==> c == Home(g, sect)
    ensures Home(g, sect) >= 2
  {
    Arith.QuotientIs(sect - g.database, g.csize, c - 2);
  }

  /** The sector belongs to the file exactly if its cluster does. */
  lemma HomeOwned(g: Geometry, chain: seq<int>, sect: nat)
    requires g.csize > 0 && AllClusters(g, chain) && sect != 0 && g.database <= sect
    ensures InFile(g, chain, sect) <==> Home(g, sect) in chain
  {
    if InFile(g, chain, sect) {
      var n :| 0 <= n < SectorCount(g, chain) && SectorNo(g, chain, n) == sect;
      HomeIs(g, sect, chain[n / g.csize]);
    }
    if Home(g, sect) in chain {
      var k :| 0 <= k < |chain| && chain[k] == Home(g, sect);
      HomeIs(g, sect, chain[k]);
      var o := sect - g.ClusterSector(chain[k]);
      var n := k * g.csize + o;
      Arith.DivModUnique(n, g.csize, k, o);
      SectorOfCluster(g, chain, n, k);
      assert SectorNo(g, chain, n) == sect;
    }
  }

  /** The buffer is for a sector in an allocated cluster that is not the file's. */
  ghost predicate Elsewhere(g: Geometry, chain: seq<int>, sect: int, fat: seq<int>) {
    Home(g, sect) !in chain && 2 <= Home(g, sect) < |fat| && fat[Home(g, sect)] != 0
  }

  // ------------------------------------------------------------------------------------------
  // Files in order

  /** A file object that has met no error and can be used: its buffer is for a sector of the file, or for one of
      a free cluster. */
  ghost predicate Usable(fs: Volume, fp: File)
    reads fp, fp.buf, fp.cltbl, fs, fs.win, fs.disk
  {
    fp.fs == fs && fp.err == Ok && fp.Valid() && fp.Mapped() && !Elsewhere(fs.g, fp.chain, fp.sect, fs.fat)
  }

  /** The same, unless its buffer is for a sector of an allocated cluster that is not the file's. */
  ghost predicate Standing(fs: Volume, fp: File)
    reads fp, fp.buf, fp.cltbl, fs, fs.win, fs.disk
  {
    && fp.fs == fs && fs.Valid() && fp.err == Ok && fs.g.csize > 0 && AllClusters(fs.g, fp.chain)
    && IsChainOrEmpty(fs.fat, fp.chain) && fp.sclust == (if fp.chain == [] then 0 else fp.chain[0])
    && (fp.sect != 0 ==> fs.g.database <= fp.sect)
    && (!Elsewhere(fs.g, fp.chain, fp.sect, fs.fat) ==> Usable(fs, fp))
  }

  lemma UsableStands(fs: Volume, fp: File)
    requires Usable(fs, fp)
    ensures Standing(fs, fp)
  {
    hide Volume.Valid, Volume.View, InFile, IsChainOrEmpty, AllBytes, CursorAt, BufferAt, File.Mapped, Elsewhere;
    fp.Parts();
  }

  /** Different file objects with nothing in common. */
  ghost predicate Separate(fp: File, fq: File)
    reads fp`cltbl, fq`cltbl
  {
    && fp != fq && fp.buf != fq.buf
    && (fp.cltbl != null && fq.cltbl != null ==> fp.cltbl != fq.cltbl)
  }

  /** The file has met no error, and its buffer is not suspect. */
  ghost predicate Good(fp: File, i: nat, suspect: set<nat>)
    reads fp`err
  {
    fp.err == Ok && i !in suspect
  }

  /** The file objects are separate, and the good ones are for files without a common cluster. */
  ghost predicate SetApart(fs: Volume, files: seq<File>, suspect: set<nat>)
    reads files
  {
    && (forall i :: 0 <= i < |files| ==> files[i].fs == fs)
    && (forall i, j :: 0 <= i < |files| && 0 <= j < |files| && i != j ==> Separate(files[i], files[j]))
    && (forall i: nat, j: nat ::
          i < |files| && j < |files| && i != j && Good(files[i], i, suspect) && Good(files[j], j, suspect) ==>
            Apart(files[i].chain, files[j].chain))
  }

  /** Between two operations: the good files are usable. */
  ghost predicate InOrder(fs: Volume, files: seq<File>, suspect: set<nat>)
    reads files, (set f | f in files :: f.buf), (set f | f in files :: f.cltbl), fs, fs.win, fs.disk
  {
    SetApart(fs, files, suspect) && forall i: nat :: i < |files| && Good(files[i], i, suspect) ==> Usable(fs, files[i])
  }

  /** After an operation: the same, but for files whose buffered cluster has been taken. */
  ghost predicate AlmostInOrder(fs: Volume, files: seq<File>, suspect: set<nat>)
    reads files, (set f | f in files :: f.buf), (set f | f in files :: f.cltbl), fs, fs.win, fs.disk
  {
    SetApart(fs, files, suspect) && forall i: nat :: i < |files| && Good(files[i], i, suspect) ==>
        Standing(fs, files[i])
  }

  /** No failed transfer can destroy the end mark of a file's chain. */
  ghost predicate AllSafe(files: seq<File>, suspect: set<nat>)
    reads files, (set f | f in files :: f.fs)
  {
    forall i: nat :: i < |files| && Good(files[i], i, suspect) ==> LookAheadSafe(files[i])
  }

  ghost function ChainsOf(files: seq<File>): (r: seq<seq<int>>)
    reads files
    ensures |r| == |files| && forall i :: 0 <= i < |files| ==> r[i] == files[i].chain
  {
    seq(|files|, i requires 0 <= i < |files| reads files => files[i].chain)
  }

  /** The table is the chains of the files and those of others (`rest`). */
  ghost predicate TableIs(fs: Volume, files: seq<File>, rest: seq<seq<int>>)
    reads fs`fat, files
  {
    Consists(fs.fat, ChainsOf(files) + rest)
  }

  // ------------------------------------------------------------------------------------------
  // A file that is not worked on

  lemma StillSeparate(s: Snapshot, own: seq<int>, own': seq<int>, chain: seq<int>)
    requires Apart(own, chain) && IsChainOrEmpty(s.fat, chain)
    requires forall c :: c in own' && c !in own ==> 2 <= c < |s.fat| && s.fat[c] == 0
    ensures Apart(own', chain) && Apart(chain, own')
  {
    forall c | c in chain
      ensures c !in own'
    {
      AllocatedInChain(s.fat, chain, c);
    }
  }

  /** File object `fq` would be usable on a volume with snapshot `s`, as far as its buffer and its place go. */
  ghost predicate ReadyIn(fq: File, s: Snapshot)
    reads fq, fq.buf, fq.cltbl
  {
    && fq.err == Ok && !InFile(fq.fs.g, fq.chain, s.window) && fq.buf.Length == SS && fq.buf != fq.fs.win
    && |fq.content| == fq.objsize && Holds(fq.fs.g, s.view, fq.chain, fq.dirty, fq.sect, fq.buf[..], fq.content)
    && fq.fptr <= fq.objsize && StandsAt(fq, fq.fptr) && fq.Mapped()
  }

  /** ... and as far as its chain goes. */
  ghost predicate ChainIn(fq: File, s: Snapshot)
    reads fq
  {
    && fq.fs.g.csize > 0 && AllClusters(fq.fs.g, fq.chain) && |s.fat| == fq.fs.g.nFatEnt
    && IsChainOrEmpty(s.fat, fq.chain) && fq.sclust == (if fq.chain == [] then 0 else fq.chain[0])
    && (fq.sect != 0 ==> fq.fs.g.database <= fq.sect)
  }

  lemma UsableThen(fs: Volume, fq: File)
    requires Usable(fs, fq)
    ensures ReadyIn(fq, fs.Snap()) && ChainIn(fq, fs.Snap()) && fq.buf != fs.win
  {
    hide Volume.Valid, Volume.View, InFile, IsChainOrEmpty, CursorAt, BufferAt, AllBytes, Elsewhere, File.Mapped;
    fq.Parts();
    Files.Standing(fq);
  }

  lemma StandsThen(fs: Volume, fq: File)
    requires fq.fs == fs && fs.Valid() && ChainIn(fq, fs.Snap()) && fq.err == Ok
    requires !Elsewhere(fs.g, fq.chain, fq.sect, fs.fat) ==> ReadyIn(fq, fs.Snap())
    ensures Standing(fs, fq)
  {
    hide Volume.Valid, Volume.View, Holds, InFile, IsChainOrEmpty, CursorAt, BufferAt, Elsewhere, File.Mapped;
    Files.Standing(fq);
  }

  lemma EndStillSafe(g: Geometry, s: Snapshot, s': Snapshot, own: seq<int>, chain: seq<int>)
    requires SparesForeign(g, s, s', own) && Apart(own, chain) && IsChainOrEmpty(s.fat, chain)
              && EndSafe(g, s.fat, chain)
    ensures EndSafe(g, s'.fat, chain)
  {
    if chain != [] {
      var c := chain[|chain| - 1];
      AllocatedInChain(s.fat, chain, c);
      assert Foreign(s, own, c);
    }
  }

  /** A sector in the buffer of a file that is not worked on does not change, unless its cluster has been taken. */
  lemma SectorStays(g: Geometry, s: Snapshot, own: seq<int>, s': Snapshot, own': seq<int>, chain: seq<int>, sect: nat)
    requires Did(g, s, own, s', own') && Apart(own, chain) && IsChainOrEmpty(s.fat, own) && IsChainOrEmpty(s.fat, chain)
    requires g.csize > 0 && 2 <= g.nFatEnt == |s.fat| && sect != 0 && g.database <= sect < |s.view|
    requires !Elsewhere(g, chain, sect, s.fat) && !Elsewhere(g, chain, sect, s'.fat)
    ensures s'.view[sect] == s.view[sect]
  {
    hide Replaces, IsChainOrEmpty;
    var c := Home(g, sect);
    HomeIs(g, sect, 2);
    HomeIs(g, sect, c);
    if c in chain {
      AllocatedIn(s.fat, chain, c);
      assert Foreign(s, own, c);
      assert SameCluster(g, s.view, s'.view, c);
    } else if c < g.nFatEnt {
      if c in own { AllocatedIn(s.fat, own, c); }
      assert c !in own + own';
      assert SameCluster(g, s.view, s'.view, c);
    } else {
      Arith.MulMono(g.nFatEnt - 2, c - 2, g.csize);
      assert Outside(g, sect);
    }
  }

  /** A file that is not worked on stays usable, and apart from the one that is, unless that has taken the cluster
      of the sector in its buffer. */
  lemma Bystander(fq: File, s: Snapshot, own: seq<int>, s': Snapshot, own': seq<int>)
    requires ReadyIn(fq, s) && ChainIn(fq, s) && Did(fq.fs.g, s, own, s', own') && Apart(own, fq.chain)
    requires !Elsewhere(fq.fs.g, fq.chain, fq.sect, s.fat) && IsChainOrEmpty(s.fat, own)
    requires fq.fs.g.FatsEnd() <= fq.fs.g.database && |s'.view| <= NO_SECTOR && 2 <= fq.fs.g.nFatEnt
    ensures ChainIn(fq, s') && Apart(own', fq.chain) && Apart(fq.chain, own')
    ensures !Elsewhere(fq.fs.g, fq.chain, fq.sect, s'.fat) ==> ReadyIn(fq, s')
    ensures EndSafe(fq.fs.g, s.fat, fq.chain) ==> EndSafe(fq.fs.g, s'.fat, fq.chain)
  {
    hide Holds, SparesForeign, InFile, Apart, IsChain, IsChainOrEmpty, CursorAt, BufferAt, StandsAt, EndSafe,
         File.Mapped, Leaves, Elsewhere, Replaces;
    ChainSpared(fq.fs.g, s, s', own, fq.chain);
    StillSeparate(s, own, own', fq.chain);
    if !Elsewhere(fq.fs.g, fq.chain, fq.sect, s'.fat) {
      if 0 < fq.sect < |s.view| {
        SectorStays(fq.fs.g, s, own, s', own', fq.chain, fq.sect);
      }
      OtherBytes(fq.fs.g, s, s', own, fq.chain, fq.dirty, fq.sect, fq.buf[..], fq.content);
    }
    if EndSafe(fq.fs.g, s.fat, fq.chain) {
      EndStillSafe(fq.fs.g, s, s', own, fq.chain);
    }
  }

  // ------------------------------------------------------------------------------------------
  // One operation

  /** An operation on a file object that has met an error: none of the functions does anything. */
  method Sticky(fp: File, op: Op)
    requires fp.fs.Valid() && fp.err != Ok && Legal(ModeOf(fp), op)
    modifies fp, fp.buf, fp.cltbl, fp.fs, fp.fs.win, fp.fs.disk
    ensures unchanged(fp, fp.buf, fp.fs, fp.fs.win, fp.fs.disk) && (fp.cltbl != null ==> unchanged(fp.cltbl))
  {
    hide Volume.Valid, Volume.Snap, Advances, Confined, Spares, Recount, Replaces;
    match op {
      case ReadOp(btr) =>
        var rbuff := new byte[btr];
        var res, br := Read(fp, rbuff, btr);
      case WriteOp(bytes) =>
        var res, bw, lost := Write(fp, bytes);
      case SeekOp(ofs) =>
        var res := Lseek(fp, ofs);
      case TruncateOp =>
        var res := Truncate(fp);
    }
  }

  lemma ValidStands(fs: Volume, fp: File)
    requires fp.fs == fs && fp.err == Ok && fp.Valid() && fp.Mapped()
    ensures Standing(fs, fp)
  {
    hide Volume.Valid, Volume.View, InFile, IsChainOrEmpty, AllBytes, CursorAt, BufferAt, File.Mapped, Elsewhere;
    fp.Parts();
  }

  lemma StillSafe(fq: File, fat: seq<int>)
    requires EndSafe(fq.fs.g, fat, fq.chain) ==> EndSafe(fq.fs.g, fq.fs.fat, fq.chain)
    ensures (fq.fs.g.fsType == Fat12 ==> fq.fs.disk.reliable || EndSafe(fq.fs.g, fat, fq.chain)) ==> LookAheadSafe(fq)
  {
  }

  /** One operation on a good file. Whatever becomes of that file, the others stay usable, unless it has taken the
      cluster of the sector in their buffer. */
  method Take(fs: Volume, files: seq<File>, i: nat, op: Op, ghost suspect: set<nat>)
    returns (out: Outcome, ghost cap: nat, lost: bool)
    requires InOrder(fs, files, suspect) && i < |files| && Good(files[i], i, suspect) && Legal(ModeOf(files[i]), op)
    modifies files[i], files[i].buf, files[i].cltbl, fs, fs.win, fs.disk
    ensures lost ==> !old(AllSafe(files, suspect)) && old(fs.disk.faults) < fs.disk.faults
    ensures !lost ==> fs.Valid() && old(fs.disk.faults) <= fs.disk.faults && AlmostInOrder(fs, files, suspect)
    ensures !lost ==> forall j :: 0 <= j < |files| && j != i ==> unchanged(files[j])
    ensures !lost && old(AllSafe(files, suspect)) ==> AllSafe(files, suspect)
    ensures !lost ==> Did(fs.g, old(fs.Snap()), old(files[i].chain), fs.Snap(), files[i].chain)
    ensures !lost ==> Follows(old(MomentOf(files[i])), MomentOf(files[i]))
    ensures !lost && files[i].err == Ok ==>
              RunStep(fs.g, ModeOf(files[i]), cap, old(MomentOf(files[i])), op, out, MomentOf(files[i]))
    ensures !lost && files[i].err == Ok ==>
              files[i].Valid()
                  && if op.TruncateOp? then files[i].sect == old(files[i].sect)
                     else SectorKept(files[i], old(files[i].sect))
    ensures !lost && files[i].err == Ok && op.TruncateOp? && files[i].canWrite ==>
              (BufferOwn(files[i]) <==> old(KeepsBuffer(files[i])))
    ensures !lost && files[i].err != Ok ==> Excused(fs, old(fs.disk.faults), files[i].err) || Stale(files[i])
    ensures fs.disk.faults == old(fs.disk.faults) && old(CountExact(fs)) ==> CountExact(fs)
    ensures files[i].mapped == old(files[i].mapped) && files[i].cltbl == old(files[i].cltbl)
  {
    hide Volume.Valid, Volume.View, Volume.Snap, File.Valid, File.Mapped, Did, Apart, EndSafe, BufferOwn, KeepsBuffer,
         CountExact, RunStep, Excused, ReadyIn, ChainIn, Follows, Elsewhere, Standing, IsChainOrEmpty, Table, InFile;
    var fp := files[i];
    ghost var s, chain := fs.Snap(), fp.chain;
    forall j: nat | j < |files| && Good(files[j], j, suspect)
      ensures ReadyIn(files[j], s) && ChainIn(files[j], s) && files[j].buf != fs.win
    {
      UsableThen(fs, files[j]);
    }
    assert Usable(fs, fp);
    ReadyVolume(fp);
    out, cap, lost := Perform(fp, op);
    if lost { return; }
    fs.Contents();
    forall j: nat | j < |files| && j != i
      ensures unchanged(files[j])
      ensures Good(files[j], j, suspect) ==>
                Standing(fs, files[j]) && Apart(fp.chain, files[j].chain) && Apart(files[j].chain, fp.chain)
      ensures Good(files[j], j, suspect) && old(LookAheadSafe(files[j])) ==> LookAheadSafe(files[j])
    {
      assert old(Separate(files[i], files[j]));
      if Good(files[j], j, suspect) {
        assert old(Good(files[j], j, suspect));
        assert old(ReadyIn(files[j], s) && ChainIn(files[j], s));
        Bystander(files[j], s, chain, fs.Snap(), fp.chain);
        StandsThen(fs, files[j]);
        StillSafe(files[j], s.fat);
      }
    }
    if fp.err == Ok {
      ValidStands(fs, fp);
    }
  }

  // ------------------------------------------------------------------------------------------
  // Whose buffer has become suspect

  /** Whether the buffer is for a sector in a cluster that is allocated but not the file's. (The code never asks
      that.) */
  method IsElsewhere(fs: Volume, fp: File) returns (away: bool)
    requires Standing(fs, fp)
    ensures away <==> Elsewhere(fs.g, fp.chain, fp.sect, fs.fat)
  {
    hide Volume.Valid, Volume.View, Usable, IsChainOrEmpty;
    if fp.sect == 0 { return false; }
    HomeIs(fs.g, fp.sect, 2);
    var home := Home(fs.g, fp.sect);
    if home >= fs.g.nFatEnt || fs.Peek(home) == 0 { return false; }
    ghost var k := 0;
    var c: u32 := fp.sclust;
    while c >= 2 && c < fs.g.nFatEnt
      invariant 0 <= k <= |fp.chain|
      invariant if k < |fp.chain| then c == fp.chain[k] else !fs.g.IsCluster(c)
      invariant forall j :: 0 <= j < k ==> fp.chain[j] != home
      decreases |fp.chain| - k
    {
      if c == home { return false; }
      LinkOrEnd(fs.fat, fp.chain, k);
      c := fs.Peek(c);
      k := k + 1;
    }
    away := true;
  }

  /** The files whose buffer is suspect by now. */
  method Review(fs: Volume, files: seq<File>, suspect: set<nat>) returns (suspect': set<nat>)
    requires AlmostInOrder(fs, files, suspect)
    ensures forall j: nat :: j in suspect' <==>
              j in suspect
                  || (j < |files| && files[j].err == Ok && Elsewhere(fs.g, files[j].chain, files[j].sect, fs.fat))
    ensures InOrder(fs, files, suspect')
  {
    hide Volume.Valid, Volume.View, Elsewhere, Separate, Apart;
    suspect' := suspect;
    for i := 0 to |files|
      invariant forall j: nat :: j in suspect' <==>
                  j in suspect
                      || (j < i && files[j].err == Ok && Elsewhere(fs.g, files[j].chain, files[j].sect, fs.fat))
    {
      if files[i].err == Ok && i !in suspect {
        var away := IsElsewhere(fs, files[i]);
        if away { suspect' := suspect' + {i}; }
      }
    }
  }

  // ------------------------------------------------------------------------------------------
  // Runs

  ghost function StatusOf(fp: File): Status
    reads fp
  {
    Status(ModeOf(fp), fp.cltbl == null || fp.mapped != [], PlainOf(fp), fp.chain, fp.err == Ok, Home(fp.fs.g, fp.sect))
  }

  lemma StatusIs(fp: File)
    ensures
      var st := StatusOf(fp);
      && st.mode == ModeOf(fp) && st.mapFit == (fp.cltbl == null || fp.mapped != []) && st.file == PlainOf(fp)
      && st.chain == fp.chain && st.ok == (fp.err == Ok) && st.home == Home(fp.fs.g, fp.sect)
  {
  }

  lemma FewerSafe(files: seq<File>, suspect: set<nat>, suspect': set<nat>)
    requires suspect <= suspect'
    ensures AllSafe(files, suspect) ==> AllSafe(files, suspect')
  {
  }

  ghost function SceneOf(fs: Volume, files: seq<File>, suspect: set<nat>): (t: Scene)
    reads files, fs`fat, fs`freeClst, fs.disk`faults
    ensures |t.files| == |files| && t.fat == fs.fat && t.freeClst == fs.freeClst && t.faults == fs.disk.faults
              && t.suspect == suspect
    ensures forall i :: 0 <= i < |files| ==> t.files[i] == StatusOf(files[i])
  {
    Scene(seq(|files|, i requires 0 <= i < |files| reads files => StatusOf(files[i])), fs.fat, fs.freeClst, fs.disk.faults, suspect)
  }

  /** Files in order make a settled scene. */
  lemma OrderSettles(fs: Volume, files: seq<File>, suspect: set<nat>)
    requires InOrder(fs, files, suspect)
    ensures Settled(SceneOf(fs, files, suspect)) && Proper(SceneOf(fs, files, suspect))
  {
    hide Volume.Valid, Volume.View, IsChainOrEmpty, Holds, File.Mapped, SetApart, CursorAt, BufferAt, InFile;
    forall i: nat | i < |files| && Good(files[i], i, suspect)
      ensures IsChainOrEmpty(fs.fat, files[i].chain) && !Elsewhere(fs.g, files[i].chain, files[i].sect, fs.fat)
                && files[i].fs == fs
    {
      assert Usable(fs, files[i]);
      ReadyVolume(files[i]);
    }
  }

  /** The sector of the buffer, as its cluster. */
  lemma HomeKept(fp: File, before: u32)
    requires fp.Valid() && SectorKept(fp, before)
    ensures Home(fp.fs.g, fp.sect) in {0, Home(fp.fs.g, before)} || Home(fp.fs.g, fp.sect) in fp.chain
  {
    hide Volume.Valid, Volume.View, IsChainOrEmpty, InFile, CursorAt, BufferAt, AllBytes;
    fp.Parts();
    if fp.sect != 0 && InFile(fp.fs.g, fp.chain, fp.sect) {
      HomeOwned(fp.fs.g, fp.chain, fp.sect);
    }
  }

  /** What an operation has done, as a step of the plain files. */
  lemma TookStep(fs: Volume, files: seq<File>, t: Scene, i: nat, op: Op, out: Outcome, cap: nat, before: u32,
                 suspect: set<nat>)
    requires i < |files| == |t.files| && files[i].fs == fs && t.files[i].ok && i !in t.suspect
              && ModeOf(files[i]) == t.files[i].mode
    requires t.files[i].mapFit == (files[i].cltbl == null || files[i].mapped != [])
              && t.files[i].home == Home(fs.g, before)
    requires forall j :: 0 <= j < |files| ==> files[j].fs == fs && (j != i ==> StatusOf(files[j]) == t.files[j])
    requires Follows(MomentAt(t, i), MomentOf(files[i]))
    requires files[i].err == Ok ==>
               && files[i].Valid() && RunStep(fs.g, ModeOf(files[i]), cap, MomentAt(t, i), op, out, MomentOf(files[i]))
               && if op.TruncateOp? then files[i].sect == before else SectorKept(files[i], before)
    requires files[i].err != Ok ==> out == Errored
    requires forall j: nat :: j in suspect <==>
               j in t.suspect
                   || (j < |files| && files[j].err == Ok && Elsewhere(fs.g, files[j].chain, files[j].sect, fs.fat))
    ensures SharedStep(fs.g, cap, t, i, op, out, SceneOf(fs, files, suspect))
  {
    hide RunStep, Follows, Volume.Valid, File.Ready, CursorAt, BufferAt, File.Valid, InFile;
    var t' := SceneOf(fs, files, suspect);
    assert t'.files == t.files[i := t'.files[i]];
    assert MomentAt(t', i) == MomentOf(files[i]);
    assert suspect == t.suspect + AllOvertaken(t');
    if files[i].err == Ok && !op.TruncateOp? {
      HomeKept(files[i], before);
    }
  }

  /** The table is the chains of the files and the same others. */
  lemma TableOfFiles(fs: Volume, files: seq<File>, s: Snapshot, chains: seq<seq<int>>, i: nat, rest: seq<seq<int>>)
    requires i < |files| == |chains| && fs.disk.faults == s.faults
    requires Confined(fs.g, s, chains[i], fs.Snap(), files[i].chain)
    requires forall j :: 0 <= j < |files| && j != i ==> files[j].chain == chains[j]
    ensures Consists(s.fat, chains + rest) ==> TableIs(fs, files, rest) && !HasOne(fs.fat)
  {
    hide Confined, HasOne, Consists;
    if Consists(s.fat, chains + rest) {
      assert (chains + rest)[i] == chains[i];
      TableKept(fs.g, s, fs.Snap(), chains + rest, i, files[i].chain);
      assert (chains + rest)[i := files[i].chain] == ChainsOf(files) + rest;
    }
  }

  lemma NotExcused(fs: Volume, faults: nat, res: FResult)
    ensures fs.disk.faults == faults && !HasOne(fs.fat) ==> !Excused(fs, faults, res)
  {
  }

  lemma TableNow(fs: Volume, files: seq<File>, rest: seq<seq<int>>)
    ensures TableIs(fs, files, rest) <==> Consists(fs.fat, ChainsOf(files) + rest)
  {
  }

  /** The file that has been worked on meets no error, but for one that a stale link map causes. */
  ghost predicate NoError(t: Scene, which: nat, t': Scene) {
    which < |t.files| && which < |t'.files| && t.files[which].ok && t.files[which].mapFit ==> t'.files[which].ok
  }

  /** One operation on a good file, on a volume whose table is the chains of the files and those of others
      (`rest`). */
  method TakeGood(fs: Volume, files: seq<File>, i: nat, op: Op, suspect: set<nat>, ghost rest: seq<seq<int>>)
    returns (out: Outcome, ghost cap: nat, suspect': set<nat>, lost: bool)
    requires InOrder(fs, files, suspect) && i < |files| && Good(files[i], i, suspect) && Legal(ModeOf(files[i]), op)
    modifies files[i], files[i].buf, files[i].cltbl, fs, fs.win, fs.disk
    ensures lost ==> !old(AllSafe(files, suspect)) && old(fs.disk.faults) < fs.disk.faults
    ensures !lost ==> fs.Valid() && old(fs.disk.faults) <= fs.disk.faults && InOrder(fs, files, suspect')
    ensures !lost ==> forall j :: 0 <= j < |files| && j != i ==> unchanged(files[j])
    ensures !lost && old(AllSafe(files, suspect)) ==> AllSafe(files, suspect')
    ensures !lost ==> SharedStep(fs.g, cap, old(SceneOf(fs, files, suspect)), i, op, out, SceneOf(fs, files, suspect'))
    ensures files[i].cltbl == old(files[i].cltbl) && files[i].mapped == old(files[i].mapped)
    ensures fs.disk.faults == old(fs.disk.faults) && old(TableIs(fs, files, rest)) ==>
              TableIs(fs, files, rest) && (files[i].err == Ok || Stale(files[i]))
    ensures fs.disk.faults == old(fs.disk.faults) && old(CountExact(fs)) ==> CountExact(fs)
  {
    hide *;
    var fp := files[i];
    OneGood(fs, files, suspect, i);
    ghost var t, s, chains, before := SceneOf(fs, files, suspect), fs.Snap(), ChainsOf(files), fp.sect;
    TableNow(fs, files, rest);
    StatusIs(fp);
    suspect' := suspect;
    out, cap, lost := Take(fs, files, i, op, suspect);
    if lost { return; }
    if fs.disk.faults == s.faults {
      DidConfined(fs.g, s, chains[i], fs.Snap(), fp.chain);
      TableOfFiles(fs, files, s, chains, i, rest);
      NotExcused(fs, s.faults, fp.err);
    }
    if fp.err != Ok {
      out := Errored;
    }
    AllThere(fs, files, suspect);
    suspect' := Review(fs, files, suspect);
    FewerSafe(files, suspect, suspect');
    TookStep(fs, files, t, i, op, out, cap, before, suspect');
  }

  lemma OneGood(fs: Volume, files: seq<File>, suspect: set<nat>, i: nat)
    requires InOrder(fs, files, suspect) && i < |files|
    ensures files[i].fs == fs && MomentAt(SceneOf(fs, files, suspect), i) == MomentOf(files[i])
    ensures Good(files[i], i, suspect) ==> fs.Valid() && files[i].Valid() && files[i].err == Ok && i !in suspect
  {
    hide Volume.Valid, File.Ready, SetApart;
    assert files[i].fs == fs by { FsOf(fs, files, suspect, i); }
    if Good(files[i], i, suspect) {
      assert Usable(fs, files[i]);
      ReadyVolume(files[i]);
    }
  }

  lemma FsOf(fs: Volume, files: seq<File>, suspect: set<nat>, i: nat)
    requires SetApart(fs, files, suspect) && i < |files|
    ensures files[i].fs == fs
  {
  }

  lemma AllThere(fs: Volume, files: seq<File>, suspect: set<nat>)
    requires AlmostInOrder(fs, files, suspect)
    ensures forall i :: 0 <= i < |files| ==> files[i].fs == fs
  {
  }

  ghost function TablesOf(files: seq<File>): (r: seq<array?<u32>>)
    reads files
    ensures |r| == |files| && forall i :: 0 <= i < |files| ==> r[i] == files[i].cltbl
  {
    seq(|files|, i requires 0 <= i < |files| reads files => files[i].cltbl)
  }

  /** One operation on any file but a suspect one. */
  method TakeAny(fs: Volume, files: seq<File>, i: nat, op: Op, suspect: set<nat>, ghost rest: seq<seq<int>>)
    returns (out: Outcome, ghost cap: nat, suspect': set<nat>, lost: bool)
    requires fs.Valid() && InOrder(fs, files, suspect) && i < |files| && i !in suspect && Legal(ModeOf(files[i]), op)
    modifies files[i], files[i].buf, files[i].cltbl, fs, fs.win, fs.disk
    ensures lost ==> !old(AllSafe(files, suspect)) && old(fs.disk.faults) < fs.disk.faults
    ensures !lost ==> fs.Valid() && old(fs.disk.faults) <= fs.disk.faults && InOrder(fs, files, suspect')
    ensures !lost ==>
              TablesOf(files) == old(TablesOf(files)) && (old(AllSafe(files, suspect)) ==> AllSafe(files, suspect'))
    ensures !lost ==> SharedStep(fs.g, cap, old(SceneOf(fs, files, suspect)), i, op, out, SceneOf(fs, files, suspect'))
    ensures fs.disk.faults == old(fs.disk.faults) && old(TableIs(fs, files, rest)) ==>
              TableIs(fs, files, rest) && NoError(old(SceneOf(fs, files, suspect)), i, SceneOf(fs, files, suspect'))
    ensures fs.disk.faults == old(fs.disk.faults) && old(CountExact(fs)) ==> CountExact(fs)
  {
    hide Volume.Valid, Volume.View, InOrder, AllSafe, CountExact, RunStep, TableIs, Legal, Follows;
    OneGood(fs, files, suspect, i);
    if files[i].err == Ok {
      hide SharedStep;
      out, cap, suspect', lost := TakeGood(fs, files, i, op, suspect, rest);
    } else {
      out, cap, suspect', lost := Errored, 0, suspect, false;
      Sticky(files[i], op);
      assert SceneOf(fs, files, suspect) == old(SceneOf(fs, files, suspect));
    }
  }

  ghost predicate Permitted(t: Scene, op: (nat, Op)) {
    op.0 < |t.files| && Legal(t.files[op.0].mode, op.1)
  }

  /** How the files are used stays the same in the course of a run. */
  ghost predicate Course(t0: Scene, t: Scene) {
    && |t.files| == |t0.files|
    && forall i :: 0 <= i < |t.files| ==> t.files[i].mode == t0.files[i].mode && t.files[i].mapFit == t0.files[i].mapFit
  }

  /** No file has met an error, but for stale link maps. */
  ghost predicate Sturdy(t0: Scene, t: Scene) {
    |t.files| == |t0.files| && forall i :: 0 <= i < |t.files| && t0.files[i].ok && t0.files[i].mapFit ==> t.files[i].ok
  }

  lemma CourseMore(g: Geometry, cap: nat, t0: Scene, t: Scene, i: nat, op: Op, out: Outcome, t': Scene)
    requires Course(t0, t) && SharedStep(g, cap, t, i, op, out, t')
    ensures Course(t0, t')
    ensures Sturdy(t0, t) && NoError(t, i, t') ==> Sturdy(t0, t')
  {
    hide RunStep, Follows;
  }

  lemma CourseBegun(t: Scene)
    ensures Course(t, t) && Sturdy(t, t)
  {
  }

  lemma InCourse(t0: Scene, t: Scene, op: (nat, Op))
    requires Course(t0, t) && Permitted(t0, op)
    ensures op.0 < |t.files| && Permitted(t, op)
  {
  }

  /** Any list of operations on any of the files, in any order, on a volume whose table is the chains of the
      files and those of others that are not open (`rest`). Each operation is carried out just as on a plain
      file that the others have nothing to do with, except that they share the free clusters; a file that has
      met an error does not disturb the others. The run ends early only before an operation on a suspect file,
      or when a failed transfer has destroyed the end mark of a chain. Unless a transfer fails no file meets an
      error (but for a link map made for an empty file), and the table is again the chains of the files and the
      same `rest`. */
  method RunShared(fs: Volume, files: seq<File>, ops: seq<(nat, Op)>, ghost rest: seq<seq<int>>)
    returns (outs: seq<Outcome>, ghost trace: seq<Scene>, ghost caps: seq<nat>, lost: bool)
    requires fs.Valid() && InOrder(fs, files, {})
    requires forall n :: 0 <= n < |ops| ==> Permitted(SceneOf(fs, files, {}), ops[n])
    modifies files, (set f | f in files :: f.buf), TablesOf(files), fs, fs.win, fs.disk
    ensures SharedRun(fs.g, old(SceneOf(fs, files, {})), ops, outs, trace, caps)
    ensures lost ==> !old(AllSafe(files, {})) && old(fs.disk.faults) < fs.disk.faults
    ensures !lost ==> fs.Valid() && old(fs.disk.faults) <= fs.disk.faults
    ensures !lost ==>
              trace[|outs|] == SceneOf(fs, files, trace[|outs|].suspect) && InOrder(fs, files, trace[|outs|].suspect)
    ensures !lost && |outs| < |ops| ==> ops[|outs|].0 in trace[|outs|].suspect
    ensures fs.disk.faults == old(fs.disk.faults) && old(TableIs(fs, files, rest)) ==>
              TableIs(fs, files, rest) && Sturdy(old(SceneOf(fs, files, {})), trace[|outs|])
    ensures fs.disk.faults == old(fs.disk.faults) && old(CountExact(fs)) ==> CountExact(fs)
  {
    hide Volume.Valid, Volume.View, InOrder, AllSafe, CountExact, SharedStep, SharedRun, TableIs, Course, Sturdy,
         NoError, SceneOf, TablesOf, ChainsOf, Settled, Proper;
    ghost var t0 := SceneOf(fs, files, {});
    outs, trace, caps, lost := [], [t0], [], false;
    OrderSettles(fs, files, {});
    Begun(fs.g, ops, t0);
    CourseBegun(t0);
    var suspect: set<nat> := {};
    while |outs| < |ops|
      invariant fs.Valid() && InOrder(fs, files, suspect) && old(fs.disk.faults) <= fs.disk.faults && !lost
      invariant |caps| == |outs| <= |ops| && |trace| == |outs| + 1 && trace[|outs|] == SceneOf(fs, files, suspect)
      invariant SharedRun(fs.g, t0, ops, outs, trace, caps) && Course(t0, SceneOf(fs, files, suspect))
      invariant TablesOf(files) == old(TablesOf(files)) && (old(AllSafe(files, {})) ==> AllSafe(files, suspect))
      invariant fs.disk.faults == old(fs.disk.faults) && old(TableIs(fs, files, rest)) ==>
                  TableIs(fs, files, rest) && Sturdy(t0, SceneOf(fs, files, suspect))
      invariant fs.disk.faults == old(fs.disk.faults) && old(CountExact(fs)) ==> CountExact(fs)
    {
      var (i, op) := ops[|outs|];
      ghost var t := SceneOf(fs, files, suspect);
      InCourse(t0, t, ops[|outs|]);
      if i in suspect { return; }
      var out;
      ghost var cap;
      out, cap, suspect, lost := TakeAny(fs, files, i, op, suspect, rest);
      if lost { return; }
      CourseMore(fs.g, cap, t0, t, i, op, out, SceneOf(fs, files, suspect));
      OrderSettles(fs, files, suspect);
      SharedRunMore(fs.g, t0, ops, outs, trace, caps, out, SceneOf(fs, files, suspect), cap);
      outs, trace, caps := outs + [out], trace + [SceneOf(fs, files, suspect)], caps + [cap];
    }
  }
}
