/** What an open file is to its user, a plain sequence of bytes with a position on a device that has room for a
    certain number of them; and the runs of operations on it. */
module PlainFiles {
  import opened Words
  import opened Geometry
  import opened Chains
  import opened Allocator
  import opened FileMap
  import opened FileState
  import opened FileGrow
  import opened FileWrite
  import opened FileSeek
  import opened FileTruncate
  import Arith

  datatype Plain = Plain(content: seq<byte>, pos: nat)

  /** How it has been opened, and whether it has a link map. */
  datatype Mode = Mode(canRead: bool, canWrite: bool, linked: bool)

  datatype Op =
    | ReadOp(btr: u32)
    | WriteOp(bytes: seq<byte>)
    | SeekOp(ofs: u32)
    | TruncateOp

  datatype Outcome =
    | Data(bytes: seq<byte>)
    | Written(count: nat)
    | Done
    | Refused
    | Errored

  function Min(a: int, b: int): int { if a < b then a else b }

  /** The position that a seek is meant to lead to. */
  function SeekGoal(mode: Mode, f: Plain, ofs: u32): nat {
    if ofs > |f.content| && (mode.linked || !mode.canWrite) then |f.content| else ofs
  }

  /** What one operation does to a plain file that has room for `cap` bytes. Only the bytes that a seek past
      the end appends are not determined. */
  ghost predicate PlainStep(mode: Mode, cap: nat, f: Plain, op: Op, out: Outcome, f': Plain) {
    f.pos <= |f.content| <= cap && f.pos < TWO32 && f'.pos <= |f'.content| <= cap &&
    match op
    case ReadOp(btr) =>
      if !mode.canRead then out == Refused && f' == f
      else f' == f.(pos := Min(f.pos + btr, |f.content|)) && out == Data(f.content[f.pos..f'.pos])
    case WriteOp(bytes) =>
      if !mode.canWrite then out == Refused && f' == f
      else
        && |bytes| < TWO32 && out == Written(Min(Fitting(f.pos, |bytes|), cap - f.pos))
        && f' == Plain(Overwrite(f.content, f.pos, bytes[..out.count]), f.pos + out.count)
    case SeekOp(ofs) =>
      && out == Done && f.content <= f'.content && f'.pos == Min(SeekGoal(mode, f, ofs), cap)
      && |f'.content| == (if f'.pos > |f.content| then f'.pos else |f.content|)
    case TruncateOp =>
      if !mode.canWrite then out == Refused && f' == f
      else out == Done && f' == Plain(f.content[..f.pos], f.pos)
  }

  /** The room that an operation needs to be carried out in full. */
  function Wanted(mode: Mode, f: Plain, op: Op): nat {
    match op
    case WriteOp(bytes) => if mode.canWrite && |bytes| < TWO32 && f.pos < TWO32 then f.pos + Fitting(f.pos, |bytes|)
                           else 0
    case SeekOp(ofs) => SeekGoal(mode, f, ofs)
    case _ => 0
  }

  /** The operations of a run. Link maps are made before it, and a file with a link map is not truncated. */
  ghost predicate Legal(mode: Mode, op: Op) {
    && (op.WriteOp? ==> |op.bytes| < TWO32)
    && (mode.linked ==> !op.TruncateOp? && op != SeekOp(CREATE_LINKMAP))
  }

  // ------------------------------------------------------------------------------------------
  // How much room there is

  /** The bytes that a file with `clusters` clusters can hold when `free` clusters are free. One with a link
      map gets no new clusters, but for its first one. */
  function Room(clusterBytes: nat, linked: bool, clusters: nat, free: nat): nat {
    if !linked then (clusters + free) * clusterBytes
    else if clusters == 0 then (if free == 0 then 0 else clusterBytes)
    else clusters * clusterBytes
  }

  /** The file is as long as its clusters allow, and it can have no more of them. */
  ghost predicate NoRoom(clusterBytes: nat, linked: bool, pos: nat, clusters: nat, fat: seq<int>, freeClst: int) {
    && pos == clusters * clusterBytes
    && ((linked && clusters > 0) || NoneFree(fat) || freeClst == 0)
  }

  /** Clusters change hands, but the room stays the same. */
  lemma RoomFixed(cb: nat, linked: bool, c: nat, z: nat, c': nat, z': nat)
    requires c + z == c' + z' && (linked ==> c' == c || (c == 0 && c' == 1))
    ensures Room(cb, linked, c', z') == Room(cb, linked, c, z)
  {
  }

  lemma RoomEnough(cb: nat, linked: bool, c: nat, z: nat)
    ensures c * cb <= Room(cb, linked, c, z)
    ensures (linked && c > 0) || z == 0 ==> Room(cb, linked, c, z) == c * cb
  {
    Arith.MulMono(c, c + z, cb);
  }

  // ------------------------------------------------------------------------------------------
  // The file and the volume's table

  /** What a run is about: the file, its clusters, and the table; how many free clusters are known of; and how
      many transfers have failed. */
  datatype Moment = Moment(file: Plain, chain: seq<int>, fat: seq<int>, freeClst: int, faults: nat)

  /** If a number of free clusters is known it is right. */
  ghost predicate CountRight(g: Geometry, m: Moment) {
    m.freeClst <= g.nFatEnt - 2 ==> m.freeClst == Zeros(m.fat)
  }

  ghost function RoomAt(g: Geometry, mode: Mode, m: Moment): nat {
    Room(g.csize * SS, mode.linked, |m.chain|, Zeros(m.fat))
  }

  /** From `m` to `m'` a file function has left the entries of all other allocated clusters as they were, and has
      taken only clusters that were free. Without a failed transfer the chain is a proper one again, the
      clusters given up are free, and no other entry has changed. */
  ghost predicate Follows(m: Moment, m': Moment) {
    && m.faults <= m'.faults && |m'.fat| == |m.fat|
    && (forall c :: 2 <= c < |m.fat| && m.fat[c] != 0 && c !in m.chain ==> m'.fat[c] == m.fat[c])
    && (forall c :: c in m'.chain && c !in m.chain ==> 2 <= c < |m.fat| && m.fat[c] == 0 && m'.fat[c] != 0)
    && (m.faults == m'.faults ==> Replaces(m.fat, m.chain, m'.fat, m'.chain))
  }

  /** What an operation that has succeeded has done to the clusters: a read nothing; a truncation has given back
      exactly the clusters that are not needed; a write or a seek has taken none that it did not need to get
      to its end. The clusters are counted. */
  ghost predicate Takes(g: Geometry, mode: Mode, m: Moment, op: Op, m': Moment) {
    match op
    case ReadOp(_) => SameTable(m, m')
    case TruncateOp =>
      if mode.canWrite && m.file.pos < |m.file.content| then
        && g.csize > 0 && ClustersFor(g, m.file.pos) <= |m.chain| && m'.chain == m.chain[..ClustersFor(g, m.file.pos)]
        && Replaces(m.fat, m.chain, m'.fat, m'.chain)
        && m'.freeClst == Recount(m.freeClst, g.nFatEnt - 2, |m.chain| - |m'.chain|)
      else SameTable(m, m')
    case _ =>
      && m.chain <= m'.chain && GrownFor(g, m.chain, m'.chain, m'.file.pos)
      && m'.freeClst == (if m.freeClst <= g.nFatEnt - 2 then m.freeClst - (|m'.chain| - |m.chain|) else m.freeClst)
      && (mode.linked ==> m'.chain == m.chain || (m.chain == [] && |m'.chain| == 1))
  }

  ghost predicate SameTable(m: Moment, m': Moment) {
    m'.chain == m.chain && m'.fat == m.fat && m'.freeClst == m.freeClst
  }

  /** From `m` to `m'`, with room for `cap` bytes: all there is, if no transfer fails and the number of free
      clusters is right or not known. If it was not enough the file has come to the end of its clusters, and no
      free one is known. */
  ghost predicate RunStep(g: Geometry, mode: Mode, cap: nat, m: Moment, op: Op, out: Outcome, m': Moment) {
    && PlainStep(mode, cap, m.file, op, out, m'.file)
    && IsChainOrEmpty(m'.fat, m'.chain) && Follows(m, m') && Takes(g, mode, m, op, m')
    && (m.faults == m'.faults && CountRight(g, m) ==> CountRight(g, m') && cap == RoomAt(g, mode, m))
    && (cap < Wanted(mode, m.file, op) ==>
       NoRoom(g.csize * SS, mode.linked, m'.file.pos, |m'.chain|, m'.fat, m'.freeClst))
  }

  /** The clusters that have changed hands. */
  lemma Exchanged(m: Moment, m': Moment)
    requires Follows(m, m') && m.faults == m'.faults && IsChainOrEmpty(m.fat, m.chain)
    ensures Zeros(m'.fat) + |m'.chain| == Zeros(m.fat) + |m.chain|
  {
    hide Replaces, Zeros, IsChainOrEmpty;
    Conserved(m.fat, m.chain, m'.fat, m'.chain);
  }

  /** Even if the number of free clusters is wrong: without a failed transfer a file (without a link map) falls
      short only when it has got all the clusters that were free, or as many as were known of. */
  lemma FallsShort(g: Geometry, mode: Mode, cap: nat, m: Moment, op: Op, out: Outcome, m': Moment)
    requires RunStep(g, mode, cap, m, op, out, m') && m.faults == m'.faults && IsChainOrEmpty(m.fat, m.chain)
    requires !mode.linked && cap < Wanted(mode, m.file, op) && g.nFatEnt >= 2
    ensures m'.file.pos == (|m.chain| + Zeros(m.fat)) * (g.csize * SS)
            || (m.freeClst <= g.nFatEnt - 2 && m'.file.pos == (|m.chain| + m.freeClst) * (g.csize * SS))
  {
    hide PlainStep, Follows, Zeros, GrownFor, IsChainOrEmpty;
    Exchanged(m, m');
    ZerosNone(m'.fat);
  }

  // ------------------------------------------------------------------------------------------
  // Runs

  /** `outs` and `trace` are a run of the plain file: `trace` begins with `m`, and each operation leads from
      one entry to the next, with the room that `caps` says. */
  ghost predicate PlainRun(g: Geometry, mode: Mode, m: Moment, ops: seq<Op>, outs: seq<Outcome>, trace: seq<Moment>,
                           caps: seq<nat>) {
    && |caps| == |outs| <= |ops| && |trace| == |outs| + 1 && trace[0] == m && IsChainOrEmpty(m.fat, m.chain)
    && forall i :: 0 <= i < |outs| ==> RunStep(g, mode, caps[i], trace[i], ops[i], outs[i], trace[i + 1])
  }

  ghost predicate AllAre(caps: seq<nat>, cap: nat) {
    forall i :: 0 <= i < |caps| ==> caps[i] == cap
  }

  lemma RunMore(g: Geometry, mode: Mode, m: Moment, ops: seq<Op>, outs: seq<Outcome>, trace: seq<Moment>,
                caps: seq<nat>,
                out: Outcome, m': Moment, cap: nat)
    requires PlainRun(g, mode, m, ops, outs, trace, caps) && |outs| < |ops|
    requires RunStep(g, mode, cap, trace[|outs|], ops[|outs|], out, m')
    ensures PlainRun(g, mode, m, ops, outs + [out], trace + [m'], caps + [cap])
  {
    hide RunStep, IsChainOrEmpty;
  }

  lemma NoRun(g: Geometry, mode: Mode, m: Moment, ops: seq<Op>)
    requires IsChainOrEmpty(m.fat, m.chain)
    ensures PlainRun(g, mode, m, ops, [], [m], [])
  {
  }

  /** Every entry of the trace has a proper chain, and the number of failed transfers only grows. */
  lemma {:induction false} Along(g: Geometry, mode: Mode, m: Moment, ops: seq<Op>, outs: seq<Outcome>,
                                 trace: seq<Moment>,
                                 caps: seq<nat>, i: nat)
    requires PlainRun(g, mode, m, ops, outs, trace, caps) && i <= |outs|
    ensures IsChainOrEmpty(trace[i].fat, trace[i].chain)
    ensures m.faults <= trace[i].faults <= trace[|outs|].faults
    decreases |outs| - i
  {
    hide PlainStep, Takes, NoRoom;
    if i < |outs| {
      Along(g, mode, m, ops, outs, trace, caps, i + 1);
      assert RunStep(g, mode, caps[i], trace[i], ops[i], outs[i], trace[i + 1]);
    }
    Began(g, mode, m, ops, outs, trace, caps, i);
  }

  lemma {:induction false} Began(g: Geometry, mode: Mode, m: Moment, ops: seq<Op>, outs: seq<Outcome>,
                                 trace: seq<Moment>,
                                 caps: seq<nat>, i: nat)
    requires PlainRun(g, mode, m, ops, outs, trace, caps) && i <= |outs|
    ensures m.faults <= trace[i].faults && IsChainOrEmpty(trace[i].fat, trace[i].chain)
  {
    hide PlainStep, Takes, NoRoom;
    if i > 0 {
      Began(g, mode, m, ops, outs, trace, caps, i - 1);
      assert RunStep(g, mode, caps[i - 1], trace[i - 1], ops[i - 1], outs[i - 1], trace[i]);
    }
  }

  /** With the right number of free clusters and without a failed transfer the room is the same throughout: the
      clusters of the file and the free ones at its beginning. */
  lemma {:induction false} SameRoom(g: Geometry, mode: Mode, m: Moment, ops: seq<Op>, outs: seq<Outcome>,
                                    trace: seq<Moment>,
                                    caps: seq<nat>, n: nat)
    requires PlainRun(g, mode, m, ops, outs, trace, caps) && n <= |outs| && forall op :: op in ops ==> Legal(mode, op)
    requires CountRight(g, m) && trace[|outs|].faults == m.faults
    ensures AllAre(caps[..n], RoomAt(g, mode, m)) && RoomAt(g, mode, trace[n]) == RoomAt(g, mode, m)
              && CountRight(g, trace[n])
  {
    hide PlainStep, NoRoom, Room, Zeros, IsChainOrEmpty, GrownFor, Replaces;
    if n > 0 {
      SameRoom(g, mode, m, ops, outs, trace, caps, n - 1);
      Along(g, mode, m, ops, outs, trace, caps, n - 1);
      Along(g, mode, m, ops, outs, trace, caps, n);
      assert RunStep(g, mode, caps[n - 1], trace[n - 1], ops[n - 1], outs[n - 1], trace[n]);
      assert Legal(mode, ops[n - 1]);
      Exchanged(trace[n - 1], trace[n]);
      RoomFixed(g.csize * SS, mode.linked, |trace[n - 1].chain|, Zeros(trace[n - 1].fat), |trace[n].chain|, Zeros(trace[n].fat));
      assert caps[..n] == caps[..n - 1] + [caps[n - 1]];
    }
  }

  /** The law that a user relies on: what has been written is read back. All of it has been written if there is
      room for it; and without a failed transfer that is so unless all free clusters have been taken, or as
      many as were known of. */
  lemma ReadBack(g: Geometry, mode: Mode, m: Moment, bytes: seq<byte>, n: u32, outs: seq<Outcome>, trace: seq<Moment>,
                 caps: seq<nat>)
    requires mode.canRead && mode.canWrite && m.file.pos < TWO32 && |bytes| <= n && g.nFatEnt >= 2
    requires PlainRun(g, mode, m, [WriteOp(bytes), SeekOp(m.file.pos), ReadOp(n)], outs, trace, caps) && |outs| == 3
    ensures outs[0].Written? && outs[0].count <= |bytes| && outs[2].Data?
    ensures outs[0].count <= |outs[2].bytes| && outs[2].bytes[..outs[0].count] == bytes[..outs[0].count]
    ensures m.file.pos + |bytes| <= caps[0] && m.file.pos + |bytes| < TWO32 ==>
              outs[0].count == |bytes| && outs[2].bytes[..|bytes|] == bytes
    ensures trace[1].faults == m.faults && CountRight(g, m) ==> caps[0] == RoomAt(g, mode, m)
    ensures trace[1].faults == m.faults && !mode.linked && outs[0].count < Fitting(m.file.pos, |bytes|) ==>
              m.file.pos + outs[0].count == (|m.chain| + Zeros(m.fat)) * (g.csize * SS)
              || (m.freeClst <= g.nFatEnt - 2
                 && m.file.pos + outs[0].count == (|m.chain| + m.freeClst) * (g.csize * SS))
  {
    hide NoRoom, Follows, Takes, Room, Zeros, IsChainOrEmpty, CountRight;
    var ops := [WriteOp(bytes), SeekOp(m.file.pos), ReadOp(n)];
    assert RunStep(g, mode, caps[0], trace[0], ops[0], outs[0], trace[1]);
    assert RunStep(g, mode, caps[1], trace[1], ops[1], outs[1], trace[2]);
    assert RunStep(g, mode, caps[2], trace[2], ops[2], outs[2], trace[3]);
    if trace[1].faults == m.faults && !mode.linked && outs[0].count < Fitting(m.file.pos, |bytes|) {
      FallsShort(g, mode, caps[0], trace[0], ops[0], outs[0], trace[1]);
    }
  }
}
