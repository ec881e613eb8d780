/** Whole runs of file functions: an open file behaves like a plain sequence of bytes with a position, on a
    device that has room for a certain number of them. */
module FileRuns {
  import opened Words
  import opened Geometry
  import opened Volume
  import opened Chains
  import opened Allocator
  import opened FileMap
  import opened FileState
  import opened Effects
  import opened LinkMap
  import opened Files
  import opened FileRead
  import opened FileGrow
  import opened FileWrite
  import opened FileFollow
  import opened FileSeek
  import opened FileTruncate
  import opened PlainFiles

  ghost function PlainOf(fp: File): Plain
    reads fp`content, fp`fptr
  {
    Plain(fp.content, fp.fptr)
  }

  function ModeOf(fp: File): Mode
    reads fp`cltbl
  {
    Mode(fp.canRead, fp.canWrite, fp.cltbl != null)
  }

  ghost function MomentOf(fp: File): Moment
    reads fp`content, fp`fptr, fp`chain, fp.fs`fat, fp.fs`freeClst, fp.fs.disk`faults
  {
    Moment(PlainOf(fp), fp.chain, fp.fs.fat, fp.fs.freeClst, fp.fs.disk.faults)
  }

  // ------------------------------------------------------------------------------------------
  // How much room there is

  ghost function RoomOf(fp: File): nat
    reads fp`chain, fp`cltbl, fp.fs`fat
  {
    Room(fp.fs.g.csize * SS, fp.cltbl != null, |fp.chain|, Zeros(fp.fs.fat))
  }

  lemma LinkedChain(fp: File, mapped: seq<int>, chain: seq<int>)
    requires mapped == chain || (mapped == [] && |chain| == 1)
    requires fp.Mapped() && fp.cltbl != null && fp.mapped == mapped && chain <= fp.chain
    ensures |fp.chain| == |chain| || (|chain| == 0 && |fp.chain| == 1)
  {
  }

  /** Without a failed transfer the room for a file is the same before and after any operation on it. */
  lemma RoomKept(fp: File, s: Snapshot, chain: seq<int>)
    requires Confined(fp.fs.g, s, chain, fp.fs.Snap(), fp.chain) && fp.fs.disk.faults == s.faults
              && IsChainOrEmpty(s.fat, chain)
    requires fp.cltbl != null ==> |fp.chain| == |chain| || (|chain| == 0 && |fp.chain| == 1)
    ensures RoomOf(fp) == Room(fp.fs.g.csize * SS, fp.cltbl != null, |chain|, Zeros(s.fat))
  {
    hide Room, Zeros, Spares, IsChainOrEmpty;
    Conserved(s.fat, chain, fp.fs.fat, fp.chain);
    RoomFixed(fp.fs.g.csize * SS, fp.cltbl != null, |chain|, Zeros(s.fat), |fp.chain|, Zeros(fp.fs.fat));
  }

  /** The bytes of a file fit in its room; at the end of that, if it is known exactly, all of it is used. */
  lemma RoomUsed(fp: File)
    requires fp.Ready()
    ensures |fp.content| <= |fp.chain| * (fp.fs.g.csize * SS) <= RoomOf(fp)
    ensures AtEnd(fp) ==> fp.fptr == |fp.chain| * (fp.fs.g.csize * SS)
    ensures AtEnd(fp) && OutOfRoom(fp) && CountExact(fp.fs) ==> RoomOf(fp) == fp.fptr
  {
    hide Volume.Valid, Volume.View, Holds, InFile, IsChainOrEmpty;
    fp.Capacity();
    fp.Parts();
    assert SectorCount(fp.fs.g, fp.chain) * SS == |fp.chain| * (fp.fs.g.csize * SS);
    RoomEnough(fp.fs.g.csize * SS, fp.cltbl != null, |fp.chain|, Zeros(fp.fs.fat));
    ZerosNone(fp.fs.fat);
  }

  /** With an exact count an operation falls short only if really every cluster is taken. */
  lemma TrulyFull(fp: File)
    requires fp.fs.g.nFatEnt >= 2 && fp.cltbl == null && OutOfRoom(fp) && CountExact(fp.fs)
    ensures NoneFree(fp.fs.fat)
  {
    ZerosNone(fp.fs.fat);
  }

  // ------------------------------------------------------------------------------------------
  // One operation

  /** What an operation has come to, as far as the table is concerned. */
  lemma FollowsNow(fp: File, m: Moment, s: Snapshot)
    requires Did(fp.fs.g, s, m.chain, fp.fs.Snap(), fp.chain) && IsChainOrEmpty(m.fat, m.chain)
    requires m.fat == s.fat && m.faults == s.faults
    ensures Follows(m, MomentOf(fp))
  {
    hide Volume.View, Replaces, IsChainOrEmpty, Leaves;
    forall c | 2 <= c < |m.fat| && m.fat[c] != 0 && c !in m.chain
      ensures fp.fs.fat[c] == m.fat[c]
    {
      assert Foreign(s, m.chain, c);
    }
  }

  /** A write or a seek has advanced. */
  lemma TakesNow(fp: File, m: Moment, s: Snapshot, op: Op, mapped: seq<int>)
    requires Advances(fp.fs.g, s, m.chain, fp.fs.Snap(), fp.chain) && m.freeClst == s.freeClst
              && (op.WriteOp? || op.SeekOp?)
    requires GrownFor(fp.fs.g, m.chain, fp.chain, fp.fptr) && fp.Mapped() && fp.mapped == mapped
    requires fp.cltbl != null ==> mapped == m.chain || (mapped == [] && |m.chain| == 1)
    ensures Takes(fp.fs.g, ModeOf(fp), m, op, MomentOf(fp))
  {
    hide Volume.View, Confined, Leaves, Held, GrownFor, Encodes;
    if fp.cltbl != null && |fp.chain| == |m.chain| {
      assert fp.chain == m.chain;
    }
  }

  lemma CountNow(fp: File)
    ensures CountExact(fp.fs) <==> CountRight(fp.fs.g, MomentOf(fp))
    ensures RoomAt(fp.fs.g, ModeOf(fp), MomentOf(fp)) == RoomOf(fp)
  {
    hide Room, Zeros;
  }

  /** A read, into a buffer of the right size. */
  method PerformRead(fp: File, btr: u32) returns (out: Outcome, ghost cap: nat)
    requires fp.Valid() && fp.err == Ok && fp.Mapped()
    modifies fp`clust, fp`sect, fp`dirty, fp`fptr, fp`err, fp.buf, fp.fs`winsect, fp.fs`wflag, fp.fs.win, fp.fs.disk
    ensures fp.fs.Valid() && old(fp.fs.disk.faults) <= fp.fs.disk.faults
    ensures Did(fp.fs.g, old(fp.fs.Snap()), fp.chain, fp.fs.Snap(), fp.chain)
              && Follows(old(MomentOf(fp)), MomentOf(fp))
    ensures fp.err == Ok ==> fp.Valid() && fp.Mapped() && SectorKept(fp, old(fp.sect))
    ensures fp.err == Ok ==> RunStep(fp.fs.g, ModeOf(fp), cap, old(MomentOf(fp)), ReadOp(btr), out, MomentOf(fp))
    ensures fp.err == Ok || (fp.err == DiskErr && old(fp.fs.disk.faults) < fp.fs.disk.faults)
  {
    hide Volume.Valid, Volume.View, Volume.Snap, Spares, Confined, File.Ready, File.Mapped, CursorAt, BufferAt, Room,
         Did, CountExact, Zeros, Follows, IsChainOrEmpty;
    fp.Capacity();
    RoomUsed(fp);
    ProperNow(fp);
    cap := RoomOf(fp);
    var rbuff := new byte[btr];
    ghost var s, before, m := fp.fs.Snap(), rbuff[..], MomentOf(fp);
    var res, br := Read(fp, rbuff, btr);
    ConfinedRead(fp.fs.g, s, fp.fs.Snap(), fp.chain);
    SparesDid(fp.fs.g, s, fp.chain, fp.fs.Snap(), fp.chain);
    FollowsNow(fp, m, s);
    CountNow(fp);
    if res == Denied { return Refused, cap; }
    out := Data(rbuff[..br]);
    if res == Ok { WholeRead(before, rbuff[..], br, fp.content[m.file.pos..fp.fptr]); }
  }

  method PerformTruncate(fp: File) returns (out: Outcome, ghost cap: nat)
    requires fp.Valid() && fp.err == Ok && fp.cltbl == null
    modifies fp`chain, fp`sclust, fp`content, fp`objsize, fp`modified, fp`dirty, fp`err
    modifies fp.fs`winsect, fp.fs`wflag, fp.fs`fat, fp.fs`freeClst, fp.fs`fsiDirty, fp.fs.win, fp.fs.disk
    ensures fp.fs.Valid() && old(fp.fs.disk.faults) <= fp.fs.disk.faults
    ensures Did(fp.fs.g, old(fp.fs.Snap()), old(fp.chain), fp.fs.Snap(), fp.chain)
              && Follows(old(MomentOf(fp)), MomentOf(fp))
    ensures fp.err == Ok ==> fp.Valid()
    ensures fp.err == Ok ==> RunStep(fp.fs.g, ModeOf(fp), cap, old(MomentOf(fp)), TruncateOp, out, MomentOf(fp))
    ensures fp.err == Ok && old(LookAheadSafe(fp)) ==> LookAheadSafe(fp)
    ensures fp.err == Ok && fp.canWrite ==> (BufferOwn(fp) <==> old(KeepsBuffer(fp)))
    ensures fp.err == Ok && !fp.canWrite ==> fp.chain == old(fp.chain)
    ensures fp.err == Ok || (fp.err == DiskErr && old(fp.fs.disk.faults) < fp.fs.disk.faults)
    ensures fp.fs.disk.faults == old(fp.fs.disk.faults) && old(CountExact(fp.fs)) ==> CountExact(fp.fs)
  {
    hide Volume.Valid, Volume.View, Volume.Snap, Confined, File.Ready, CursorAt, BufferAt, CountExact, LookAheadSafe,
         ClustersFor, CsizeOk, SectorCount, BufferOwn, KeepsBuffer, Room, Zeros, Did, Spares, Follows, Replaces,
         Recount, IsChainOrEmpty;
    fp.Capacity();
    RoomUsed(fp);
    ProperNow(fp);
    CountNow(fp);
    cap := RoomOf(fp);
    ghost var s, m := fp.fs.Snap(), MomentOf(fp);
    var res := Truncate(fp);
    SparesDid(fp.fs.g, s, m.chain, fp.fs.Snap(), fp.chain);
    FollowsNow(fp, m, s);
    CountNow(fp);
    if fp.err == Ok { ProperNow(fp); }
    out := if res == Denied then Refused else Done;
  }

  lemma ProperNow(fp: File)
    requires fp.Ready()
    ensures IsChainOrEmpty(fp.fs.fat, fp.chain) && fp.fs.g.csize > 0 && fp.fs.g.nFatEnt >= 2
  {
    hide Volume.Valid, Volume.View, Holds, InFile, IsChainOrEmpty;
    fp.Parts();
  }

  /** The room that a write or a seek has found: all there is, if that is known, else what it has used or
      more than it has wanted. It falls short only at the end of it. */
  lemma RoomFound(fp: File, s: Snapshot, chain: seq<int>, mapped: seq<int>, exact: bool, wanted: nat) returns (cap: nat)
    requires fp.Ready() && fp.Mapped() && fp.fptr <= fp.objsize && fp.fptr <= wanted < TWO32
    requires Advances(fp.fs.g, s, chain, fp.fs.Snap(), fp.chain) && IsChainOrEmpty(s.fat, chain)
    requires fp.mapped == mapped && (fp.cltbl != null ==> mapped == chain || (mapped == [] && |chain| == 1))
    requires exact ==> fp.fs.disk.faults == s.faults && CountExact(fp.fs)
    requires fp.fptr < wanted ==> AtEnd(fp) && OutOfRoom(fp)
    ensures |fp.content| <= cap && fp.fptr == Min(wanted, cap)
    ensures exact ==> cap == RoomOf(fp) == Room(fp.fs.g.csize * SS, fp.cltbl != null, |chain|, Zeros(s.fat))
    ensures cap < wanted ==> Stuck(fp)
  {
    hide Volume.Valid, Volume.View, Volume.Snap, Spares, Holds, InFile, IsChainOrEmpty, Encodes, Room, Zeros, NoneFree,
         Replaces, Confined, Leaves, Held, Counted;
    RoomUsed(fp);
    if fp.cltbl != null {
      LinkedChain(fp, mapped, chain);
    }
    if exact {
      RoomKept(fp, s, chain);
    }
    fp.Capacity();
    cap := if exact then RoomOf(fp) else if fp.fptr < wanted then fp.fptr else TWO32;
  }

  /** What a write has done is a step of the plain file. */
  lemma WrittenStep(mode: Mode, cap: nat, f: Plain, bytes: seq<byte>, bw: nat, f': Plain)
    requires mode.canWrite && |bytes| < TWO32 && f.pos <= |f.content| && f.pos < TWO32 && |f'.content| <= cap
    requires bw <= |bytes| && f' == Plain(Overwrite(f.content, f.pos, bytes[..bw]), f.pos + bw)
    requires f'.pos == Min(f.pos + Fitting(f.pos, |bytes|), cap)
    ensures PlainStep(mode, cap, f, WriteOp(bytes), Written(bw), f')
  {
    hide Fitting;
  }

  lemma SoughtStep(mode: Mode, cap: nat, f: Plain, ofs: u32, f': Plain)
    requires f.pos <= |f.content| && f.pos < TWO32 && f'.pos <= |f'.content| <= cap && f.content <= f'.content
    requires f'.pos == Min(SeekGoal(mode, f, ofs), cap)
              && |f'.content| == (if f'.pos > |f.content| then f'.pos else |f.content|)
    ensures PlainStep(mode, cap, f, SeekOp(ofs), Done, f')
  {
  }

  /** All of it together. */
  lemma Stepped(fp: File, m: Moment, s: Snapshot, op: Op, mapped: seq<int>, out: Outcome, cap: nat, exact: bool)
    requires fp.Ready() && fp.Mapped() && fp.mapped == mapped && (op.WriteOp? || op.SeekOp?)
    requires fp.cltbl != null ==> mapped == m.chain || (mapped == [] && |m.chain| == 1)
    requires m.fat == s.fat && m.faults == s.faults && m.freeClst == s.freeClst && IsChainOrEmpty(m.fat, m.chain)
    requires Advances(fp.fs.g, s, m.chain, fp.fs.Snap(), fp.chain) && GrownFor(fp.fs.g, m.chain, fp.chain, fp.fptr)
    requires PlainStep(ModeOf(fp), cap, m.file, op, out, PlainOf(fp))
    requires exact <==> CountRight(fp.fs.g, m) && fp.fs.disk.faults == s.faults
    requires exact ==> CountExact(fp.fs) && cap == Room(fp.fs.g.csize * SS, fp.cltbl != null, |m.chain|, Zeros(s.fat))
    requires cap < Wanted(ModeOf(fp), m.file, op) ==> Stuck(fp)
    ensures RunStep(fp.fs.g, ModeOf(fp), cap, m, op, out, MomentOf(fp))
  {
    hide Volume.Valid, Volume.View, Volume.Snap, Advances, Takes, Follows, GrownFor, PlainStep, Room, Zeros, Wanted,
         File.Mapped, IsChainOrEmpty, NoneFree, File.Ready, CountExact, CountRight;
    AdvancesDid(fp.fs.g, s, m.chain, fp.fs.Snap(), fp.chain);
    FollowsNow(fp, m, s);
    TakesNow(fp, m, s, op, mapped);
    ProperNow(fp);
    CountNow(fp);
  }

  method PerformWrite(fp: File, bytes: seq<byte>) returns (out: Outcome, ghost cap: nat, lost: bool)
    requires fp.Valid() && fp.err == Ok && fp.Mapped() && |bytes| < TWO32
    modifies fp`clust, fp`chain, fp`sclust, fp`content, fp`objsize, fp`dirty, fp`sect, fp`fptr, fp`err, fp`modified,
             fp.buf
    modifies fp.fs`winsect, fp.fs`wflag, fp.fs`fat, fp.fs`lastClst, fp.fs`freeClst, fp.fs`fsiDirty, fp.fs.win,
             fp.fs.disk
    ensures lost ==> !old(LookAheadSafe(fp)) && old(fp.fs.disk.faults) < fp.fs.disk.faults
    ensures !lost ==> fp.fs.Valid() && old(fp.fs.disk.faults) <= fp.fs.disk.faults
    ensures !lost ==>
              Did(fp.fs.g, old(fp.fs.Snap()), old(fp.chain), fp.fs.Snap(), fp.chain)
                  && Follows(old(MomentOf(fp)), MomentOf(fp))
    ensures !lost && fp.err == Ok ==> fp.Valid() && fp.Mapped() && SectorKept(fp, old(fp.sect))
    ensures !lost && fp.err == Ok ==>
              RunStep(fp.fs.g, ModeOf(fp), cap, old(MomentOf(fp)), WriteOp(bytes), out, MomentOf(fp))
    ensures !lost && fp.err == Ok && old(LookAheadSafe(fp)) ==> LookAheadSafe(fp)
    ensures !lost && fp.err == Ok && old(BufferOwn(fp)) ==> BufferOwn(fp)
    ensures !lost && fp.err != Ok ==> Excused(fp.fs, old(fp.fs.disk.faults), fp.err)
    ensures fp.fs.disk.faults == old(fp.fs.disk.faults) && old(CountExact(fp.fs)) ==> CountExact(fp.fs)
  {
    hide Volume.Valid, Volume.View, Volume.Snap, Spares, Confined, Advances, File.Ready, File.Mapped, CursorAt,
         BufferAt, Overwrite, CountExact, OutOfRoom, AtEnd, LookAheadSafe, CsizeOk, SectorCount, Room, Fitting, Stuck,
         AllClusters, Did, Follows, Takes, GrownFor, PlainStep, CountRight, IsChainOrEmpty, NoRoom, Zeros;
    fp.Capacity();
    ProperNow(fp);
    RoomUsed(fp);
    MappedNow(fp);
    CountNow(fp);
    ghost var s, exact, m := fp.fs.Snap(), CountExact(fp.fs), MomentOf(fp);
    cap := RoomOf(fp);
    var res, bw;
    res, bw, lost := Write(fp, bytes);
    out := if res == Denied then Refused else Written(bw);
    if lost { return; }
    AdvancesDid(fp.fs.g, s, m.chain, fp.fs.Snap(), fp.chain);
    FollowsNow(fp, m, s);
    if fp.err == Ok {
      if res == Ok {
        StaysOwn(fp, s, m.chain, old(fp.sect));
        exact := exact && fp.fs.disk.faults == s.faults;
        cap := RoomFound(fp, s, m.chain, fp.mapped, exact, m.file.pos + Fitting(m.file.pos, |bytes|));
        WrittenStep(ModeOf(fp), cap, m.file, bytes, bw, PlainOf(fp));
        Stepped(fp, m, s, WriteOp(bytes), fp.mapped, out, cap, exact);
      } else {
        RefusedStep(fp, m, bytes, cap);
      }
    }
  }

  lemma RefusedStep(fp: File, m: Moment, bytes: seq<byte>, cap: nat)
    requires m == MomentOf(fp) && !fp.canWrite && fp.Valid() && cap == RoomOf(fp)
    ensures RunStep(fp.fs.g, ModeOf(fp), cap, m, WriteOp(bytes), Refused, m)
  {
    hide Volume.Valid, Volume.View, File.Ready, CursorAt, BufferAt, Room, Zeros, CountRight, ClusterPos, NoRoom;
    ProperNow(fp);
    RoomUsed(fp);
    CountNow(fp);
    fp.Capacity();
  }

  lemma MappedNow(fp: File)
    requires fp.Mapped()
    ensures fp.cltbl != null ==> fp.mapped == fp.chain || (fp.mapped == [] && |fp.chain| == 1)
  {
  }

  /** The file cannot grow any further. */
  ghost predicate Stuck(fp: File)
    reads fp`fptr, fp`chain, fp`cltbl, fp.fs`fat, fp.fs`freeClst
  {
    NoRoom(fp.fs.g.csize * SS, fp.cltbl != null, fp.fptr, |fp.chain|, fp.fs.fat, fp.fs.freeClst)
  }

  lemma StaysOwn(fp: File, s: Snapshot, chain: seq<int>, before: u32)
    requires fp.Ready() && Advances(fp.fs.g, s, chain, fp.fs.Snap(), fp.chain) && SectorKept(fp, before)
    ensures (before != 0 ==> InFile(fp.fs.g, chain, before)) ==> BufferOwn(fp)
  {
    hide Volume.Valid, Volume.View, Holds, IsChainOrEmpty, InFile, Confined, Leaves, Held, Counted;
    if before != 0 ==> InFile(fp.fs.g, chain, before) {
      StillOwn(fp, chain, before);
    }
  }

  method PerformSeek(fp: File, ofs: u32) returns (out: Outcome, ghost cap: nat)
    requires fp.Valid() && fp.err == Ok && fp.Mapped() && !(fp.cltbl != null && ofs == CREATE_LINKMAP)
    modifies fp`fptr, fp`clust, fp`chain, fp`sclust, fp`content, fp`objsize, fp`modified, fp`dirty, fp`sect, fp`err,
             fp`mapped, fp.buf, fp.cltbl
    modifies fp.fs`winsect, fp.fs`wflag, fp.fs`fat, fp.fs`lastClst, fp.fs`freeClst, fp.fs`fsiDirty, fp.fs.win,
             fp.fs.disk
    ensures fp.fs.Valid() && old(fp.fs.disk.faults) <= fp.fs.disk.faults
    ensures Did(fp.fs.g, old(fp.fs.Snap()), old(fp.chain), fp.fs.Snap(), fp.chain)
              && Follows(old(MomentOf(fp)), MomentOf(fp))
    ensures fp.mapped == old(fp.mapped) && Table(fp) == old(Table(fp))
    ensures fp.err == Ok ==> fp.Valid() && fp.Mapped() && SectorKept(fp, old(fp.sect))
    ensures fp.err == Ok ==> RunStep(fp.fs.g, ModeOf(fp), cap, old(MomentOf(fp)), SeekOp(ofs), out, MomentOf(fp))
    ensures old(LookAheadSafe(fp)) ==> LookAheadSafe(fp)
    ensures fp.err == Ok && old(BufferOwn(fp)) ==> BufferOwn(fp)
    ensures fp.err != Ok ==> Excused(fp.fs, old(fp.fs.disk.faults), fp.err) || Stale(fp)
    ensures fp.fs.disk.faults == old(fp.fs.disk.faults) && old(CountExact(fp.fs)) ==> CountExact(fp.fs)
  {
    hide Volume.Valid, Volume.View, Volume.Snap, Spares, Confined, Advances, File.Ready, File.Mapped, CursorAt,
         BufferAt, Landed, CountExact, OutOfRoom, AtEnd, LookAheadSafe, CsizeOk, SectorCount, Room, Stuck, AllClusters,
         Did, Follows, Takes, GrownFor, PlainStep, CountRight, IsChainOrEmpty, NoRoom, Zeros;
    fp.Capacity();
    ProperNow(fp);
    RoomUsed(fp);
    MappedNow(fp);
    CountNow(fp);
    ghost var s, exact, m := fp.fs.Snap(), CountExact(fp.fs), MomentOf(fp);
    ghost var goal := SeekGoal(ModeOf(fp), m.file, ofs);
    cap := RoomOf(fp);
    var res := Lseek(fp, ofs);
    AdvancesDid(fp.fs.g, s, m.chain, fp.fs.Snap(), fp.chain);
    FollowsNow(fp, m, s);
    out := Done;
    if fp.err == Ok {
      StaysOwn(fp, s, m.chain, old(fp.sect));
      exact := exact && fp.fs.disk.faults == s.faults;
      cap := RoomFound(fp, s, m.chain, fp.mapped, exact, goal);
      fp.Capacity();
      SoughtStep(ModeOf(fp), cap, m.file, ofs, PlainOf(fp));
      Stepped(fp, m, s, SeekOp(ofs), fp.mapped, out, cap, exact);
    }
  }

  /** The link map was made when the file had no clusters. */
  ghost predicate Stale(fp: File)
    reads fp`err, fp`cltbl, fp`mapped
  {
    fp.err == IntErr && fp.cltbl != null && fp.mapped == []
  }

  /** One operation. `lost` is as for f_write. */
  method Perform(fp: File, op: Op) returns (out: Outcome, ghost cap: nat, lost: bool)
    requires fp.Valid() && fp.err == Ok && fp.Mapped() && Legal(ModeOf(fp), op)
    modifies fp`fptr, fp`clust, fp`chain, fp`sclust, fp`content, fp`objsize, fp`modified, fp`dirty, fp`sect, fp`err,
             fp`mapped, fp.buf, fp.cltbl
    modifies fp.fs`winsect, fp.fs`wflag, fp.fs`fat, fp.fs`lastClst, fp.fs`freeClst, fp.fs`fsiDirty, fp.fs.win,
             fp.fs.disk
    ensures fp.mapped == old(fp.mapped) && Table(fp) == old(Table(fp))
    ensures lost ==> !old(LookAheadSafe(fp)) && old(fp.fs.disk.faults) < fp.fs.disk.faults
    ensures !lost ==> fp.fs.Valid() && old(fp.fs.disk.faults) <= fp.fs.disk.faults
    ensures !lost ==>
              Did(fp.fs.g, old(fp.fs.Snap()), old(fp.chain), fp.fs.Snap(), fp.chain)
                  && Follows(old(MomentOf(fp)), MomentOf(fp))
    ensures !lost && fp.err == Ok ==> fp.Valid() && fp.Mapped()
    ensures !lost && fp.err == Ok ==> if op.TruncateOp? then fp.sect == old(fp.sect) else SectorKept(fp, old(fp.sect))
    ensures !lost && fp.err == Ok ==> RunStep(fp.fs.g, ModeOf(fp), cap, old(MomentOf(fp)), op, out, MomentOf(fp))
    ensures fp.fs.disk.faults == old(fp.fs.disk.faults) && old(CountExact(fp.fs)) ==> CountExact(fp.fs)
    ensures !lost && fp.err == Ok && old(LookAheadSafe(fp)) ==> LookAheadSafe(fp)
    ensures !lost && fp.err == Ok && old(BufferOwn(fp)) && !op.TruncateOp? ==> BufferOwn(fp)
    ensures !lost && fp.err == Ok && op.TruncateOp? && fp.canWrite ==> (BufferOwn(fp) <==> old(KeepsBuffer(fp)))
    ensures !lost && fp.err == Ok && op.TruncateOp? && !fp.canWrite && old(BufferOwn(fp)) ==> BufferOwn(fp)
    ensures !lost && fp.err != Ok ==> Excused(fp.fs, old(fp.fs.disk.faults), fp.err) || Stale(fp)
  {
    hide Volume.Valid, Volume.View, Volume.Snap, Confined, File.Ready, CursorAt, BufferAt, LookAheadSafe, KeepsBuffer,
         Room, Zeros, RunStep, Encodes, Did, Follows, InFile;
    ghost var s := fp.fs.Snap();
    lost := false;
    match op {
      case ReadOp(btr) => out, cap := PerformRead(fp, btr); StaysOwnRead(fp, old(fp.sect));
      case WriteOp(bytes) => out, cap, lost := PerformWrite(fp, bytes);
      case SeekOp(ofs) => out, cap := PerformSeek(fp, ofs);
      case TruncateOp => out, cap := PerformTruncate(fp);
    }
  }

  lemma StaysOwnRead(fp: File, before: u32)
    requires fp.err == Ok ==> SectorKept(fp, before)
    ensures fp.err == Ok && (before != 0 ==> InFile(fp.fs.g, fp.chain, before)) ==> BufferOwn(fp)
  {
    hide InFile;
  }

  // ------------------------------------------------------------------------------------------
  // Runs

  /** Any list of operations. Unless one of them runs into a failed transfer, a malformed FAT entry or a stale
      link map all of them are carried out, each just as on a plain file, and each entry of the trace comes from
      the one before. If the free count is exact and no transfer fails, that file has a fixed room: the file's
      clusters and the free ones. */
  method Run(fp: File, ops: seq<Op>)
    returns (outs: seq<Outcome>, ghost trace: seq<Moment>, ghost caps: seq<nat>, lost: bool)
    requires fp.Valid() && fp.err == Ok && fp.Mapped() && forall op :: op in ops ==> Legal(ModeOf(fp), op)
    modifies fp`fptr, fp`clust, fp`chain, fp`sclust, fp`content, fp`objsize, fp`modified, fp`dirty, fp`sect, fp`err,
             fp`mapped, fp.buf, fp.cltbl
    modifies fp.fs`winsect, fp.fs`wflag, fp.fs`fat, fp.fs`lastClst, fp.fs`freeClst, fp.fs`fsiDirty, fp.fs.win,
             fp.fs.disk
    ensures PlainRun(fp.fs.g, ModeOf(fp), old(MomentOf(fp)), ops, outs, trace, caps)
    ensures lost ==> !old(LookAheadSafe(fp)) && old(fp.fs.disk.faults) < fp.fs.disk.faults
    ensures !lost ==> fp.fs.Valid() && old(fp.fs.disk.faults) <= fp.fs.disk.faults
    ensures !lost ==> trace[|outs|].faults <= fp.fs.disk.faults
    ensures !lost && fp.err == Ok ==> |outs| == |ops| && fp.Valid() && fp.Mapped() && trace[|outs|] == MomentOf(fp)
    ensures !lost && fp.err != Ok ==> Excused(fp.fs, old(fp.fs.disk.faults), fp.err) || Stale(fp)
    ensures !lost ==> Confined(fp.fs.g, old(fp.fs.Snap()), old(fp.chain), fp.fs.Snap(), fp.chain)
    ensures fp.mapped == old(fp.mapped)
    ensures fp.fs.disk.faults == old(fp.fs.disk.faults) && old(CountExact(fp.fs)) ==>
              CountExact(fp.fs) && AllAre(caps, old(RoomOf(fp)))
  {
    hide Volume.Valid, Volume.Snap, Confined, File.Valid, File.Mapped, CountExact, LookAheadSafe, RunStep, Legal, Room,
         PlainRun, AllAre, BufferOwn, KeepsBuffer, NoneFree, Zeros, Did, Follows, Leaves, CountRight, IsChainOrEmpty,
         Table;
    ghost var mode, m := ModeOf(fp), MomentOf(fp);
    var i := 0;
    outs, trace, caps, lost := [], [m], [], false;
    ConfinedNot(fp.fs.g, fp.fs.Snap(), fp.chain);
    CountNow(fp);
    ReadyVolume(fp);
    NoRun(fp.fs.g, mode, m, ops);
    while i < |ops|
      invariant 0 <= i <= |ops| && |outs| == |caps| == i && |trace| == i + 1
      invariant fp.fs.Valid() && fp.Valid() && fp.err == Ok && fp.Mapped()
                && old(fp.fs.disk.faults) <= fp.fs.disk.faults && !lost
      invariant fp.mapped == old(fp.mapped) && (old(LookAheadSafe(fp)) ==> LookAheadSafe(fp))
      invariant PlainRun(fp.fs.g, mode, m, ops, outs, trace, caps) && trace[i] == MomentOf(fp)
      invariant Confined(fp.fs.g, old(fp.fs.Snap()), old(fp.chain), fp.fs.Snap(), fp.chain)
      invariant fp.fs.disk.faults == old(fp.fs.disk.faults) && old(CountExact(fp.fs)) ==> CountExact(fp.fs)
    {
      ghost var s, c := fp.fs.Snap(), fp.chain;
      var out;
      ghost var cap;
      out, cap, lost := Perform(fp, ops[i]);
      if lost {
        return;
      }
      DidConfined(fp.fs.g, s, c, fp.fs.Snap(), fp.chain);
      ConfinedTrans(fp.fs.g, old(fp.fs.Snap()), old(fp.chain), s, c, fp.fs.Snap(), fp.chain);
      if fp.err != Ok {
        if Excused(fp.fs, s.faults, fp.err) { ExcusedLater(fp.fs, old(fp.fs.disk.faults), s.faults, fp.err); }
        break;
      }
      RunMore(fp.fs.g, mode, m, ops, outs, trace, caps, out, MomentOf(fp), cap);
      outs, trace, caps := outs + [out], trace + [MomentOf(fp)], caps + [cap];
      i := i + 1;
    }
    if fp.fs.disk.faults == old(fp.fs.disk.faults) && old(CountExact(fp.fs)) {
      Along(fp.fs.g, mode, m, ops, outs, trace, caps, 0);
      SameRoom(fp.fs.g, mode, m, ops, outs, trace, caps, |outs|);
      assert caps[..|outs|] == caps;
    }
  }

  lemma DidConfined(g: Geometry, s: Snapshot, chain: seq<int>, s': Snapshot, chain': seq<int>)
    requires Did(g, s, chain, s', chain')
    ensures Confined(g, s, chain, s', chain') && s.faults <= s'.faults
  {
  }

  lemma ReadyVolume(fp: File)
    requires fp.Valid()
    ensures fp.fs.Valid() && IsChainOrEmpty(fp.fs.fat, fp.chain)
  {
    hide File.Ready;
    ProperNow(fp);
  }

  /** As long as no transfer fails, a run of operations on one file keeps the whole table a set of
      disjoint chains without a lost cluster. */
  lemma TableKept(g: Geometry, s: Snapshot, s': Snapshot, chains: seq<seq<int>>, k: nat, chain': seq<int>)
    requires Consists(s.fat, chains) && k < |chains|
    requires Confined(g, s, chains[k], s', chain') && s'.faults == s.faults
    ensures Consists(s'.fat, chains[k := chain']) && !HasOne(s'.fat)
  {
    assert IsChainOrEmpty(s.fat, chains[k]);
    ReplaceChain(s.fat, chains, k, s'.fat, chain');
    NoOnes(s'.fat, chains[k := chain']);
  }

  /** On a volume whose table is a set of disjoint chains, one for each file, a run on file `k` is carried
      out to its end and leaves such a table behind, unless a transfer fails (or the file's link map was made
      when it had no clusters). */
  method RunOnVolume(fp: File, ops: seq<Op>, ghost chains: seq<seq<int>>, ghost k: nat)
    returns (outs: seq<Outcome>, ghost trace: seq<Moment>, ghost caps: seq<nat>)
    requires fp.Valid() && fp.err == Ok && fp.Mapped() && forall op :: op in ops ==> Legal(ModeOf(fp), op)
    requires Consists(fp.fs.fat, chains) && k < |chains| && chains[k] == fp.chain
    modifies fp`fptr, fp`clust, fp`chain, fp`sclust, fp`content, fp`objsize, fp`modified, fp`dirty, fp`sect, fp`err,
             fp`mapped, fp.buf, fp.cltbl
    modifies fp.fs`winsect, fp.fs`wflag, fp.fs`fat, fp.fs`lastClst, fp.fs`freeClst, fp.fs`fsiDirty, fp.fs.win,
             fp.fs.disk
    ensures PlainRun(fp.fs.g, ModeOf(fp), old(MomentOf(fp)), ops, outs, trace, caps)
    ensures fp.fs.disk.faults == old(fp.fs.disk.faults) ==> Consists(fp.fs.fat, chains[k := fp.chain])
    ensures fp.fs.disk.faults == old(fp.fs.disk.faults) && (fp.cltbl == null || old(fp.mapped) != []) ==>
              fp.err == Ok && |outs| == |ops| && fp.Valid() && trace[|outs|] == MomentOf(fp)
    ensures fp.fs.disk.faults == old(fp.fs.disk.faults) && old(CountExact(fp.fs)) ==> AllAre(caps, old(RoomOf(fp)))
  {
    hide Volume.Valid, Volume.Snap, Confined, File.Valid, File.Mapped, LookAheadSafe, RunStep, Legal, Consists, HasOne,
         AllAre, Room;
    ghost var s := fp.fs.Snap();
    var lost;
    outs, trace, caps, lost := Run(fp, ops);
    if fp.fs.disk.faults == s.faults {
      TableKept(fp.fs.g, s, fp.fs.Snap(), chains, k, fp.chain);
    }
  }

  /** Even if transfers fail, a file that shares no cluster with the one worked on keeps its chain ... */
  lemma ChainSpared(g: Geometry, s: Snapshot, s': Snapshot, own: seq<int>, chain: seq<int>)
    requires SparesForeign(g, s, s', own) && Apart(own, chain) && IsChainOrEmpty(s.fat, chain)
    ensures IsChainOrEmpty(s'.fat, chain) && |s'.fat| == |s.fat|
  {
    forall c | c in chain
      ensures Foreign(s, own, c)
    {
      AllocatedInChain(s.fat, chain, c);
    }
    if chain != [] {
      ChainFrame(s.fat, s'.fat, chain);
    }
  }

  /** ... and its bytes and its place, if the sector in its buffer has not changed. */
  lemma OtherBytes(g: Geometry, s: Snapshot, s': Snapshot, own: seq<int>, chain: seq<int>,
                   dirty: bool, sect: int, buf: seq<byte>, content: seq<byte>)
    requires SparesForeign(g, s, s', own) && Apart(own, chain)
    requires IsChainOrEmpty(s.fat, chain) && Holds(g, s.view, chain, dirty, sect, buf, content)
              && !InFile(g, chain, s.window)
    requires 0 < sect < |s.view| && |s'.view| == |s.view| ==> s'.view[sect] == s.view[sect]
    requires g.FatsEnd() <= g.database && |s'.view| <= NO_SECTOR
    ensures Holds(g, s'.view, chain, dirty, sect, buf, content) && !InFile(g, chain, s'.window)
  {
    hide AllBytes, Holds;
    assert Mappable(g, s.view, chain) by { HoldsMappable(g, s.view, chain, dirty, sect, buf, content); }
    forall x | 0 <= x < |s.view| && InFile(g, chain, x)
      ensures s'.view[x] == s.view[x]
    {
      OtherSector(g, s, s', own, chain, x);
    }
    AfterOthers(g, s.view, s'.view, chain, dirty, sect, buf, content);
    if InFile(g, chain, s'.window) {
      InFileBounds(g, s.view, chain, s'.window);
    }
  }

  lemma OtherSector(g: Geometry, s: Snapshot, s': Snapshot, own: seq<int>, chain: seq<int>, x: nat)
    requires SparesForeign(g, s, s', own) && Apart(own, chain) && IsChainOrEmpty(s.fat, chain)
    requires x < |s.view| && InFile(g, chain, x)
    ensures s'.view[x] == s.view[x]
  {
    var n :| 0 <= n < SectorCount(g, chain) && SectorNo(g, chain, n) == x;
    var c := chain[n / g.csize];
    AllocatedInChain(s.fat, chain, c);
    assert Foreign(s, own, c);
    assert SameCluster(g, s.view, s'.view, c);
  }

  /** Both, for a file whose buffer is for one of its sectors. */
  lemma OtherFile(g: Geometry, s: Snapshot, s': Snapshot, own: seq<int>, chain: seq<int>,
                  dirty: bool, sect: int, buf: seq<byte>, content: seq<byte>)
    requires SparesForeign(g, s, s', own) && Apart(own, chain)
    requires IsChainOrEmpty(s.fat, chain) && Holds(g, s.view, chain, dirty, sect, buf, content)
              && !InFile(g, chain, s.window)
    requires sect != 0 ==> InFile(g, chain, sect)
    requires g.FatsEnd() <= g.database && |s'.view| <= NO_SECTOR
    ensures IsChainOrEmpty(s'.fat, chain) && Holds(g, s'.view, chain, dirty, sect, buf, content)
              && !InFile(g, chain, s'.window)
  {
    hide Holds, SparesForeign, InFile, IsChainOrEmpty;
    ChainSpared(g, s, s', own, chain);
    if 0 < sect < |s.view| { OtherSector(g, s, s', own, chain, sect); }
    OtherBytes(g, s, s', own, chain, dirty, sect, buf, content);
  }

  lemma HoldsMappable(g: Geometry, v: seq<Sector>, chain: seq<int>, dirty: bool, sect: int, buf: seq<byte>,
                      content: seq<byte>)
    requires Holds(g, v, chain, dirty, sect, buf, content)
    ensures Mappable(g, v, chain)
  {
  }

  lemma ConfinedRead(g: Geometry, s: Snapshot, s': Snapshot, chain: seq<int>)
    requires Spares(g, s, s', chain) && s'.fat == s.fat
    ensures Confined(g, s, chain, s', chain)
  {
  }

  lemma AdvancesConfined(g: Geometry, s: Snapshot, chain: seq<int>, s': Snapshot, chain': seq<int>)
    requires Advances(g, s, chain, s', chain')
    ensures Confined(g, s, chain, s', chain')
  {
    hide Confined;
  }

  lemma WholeRead(before: seq<byte>, after: seq<byte>, br: nat, bytes: seq<byte>)
    requires |bytes| == br <= |before| && after == Splice(before, 0, bytes)
    ensures after[..br] == bytes
  {
  }
}
