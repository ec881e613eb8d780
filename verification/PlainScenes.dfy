/** Any number of plain files on one volume: what one operation on one of them does to it and to the table, and
    what runs of such operations are. */
module PlainScenes {
  import opened Words
  import opened Geometry
  import opened Chains
  import opened FileGrow
  import opened FileWrite
  import opened PlainFiles

  /** For each file: how it is used, whether its link map (if it has one) was made when it had clusters, the plain
      file, its clusters, whether its object is free of errors, and the cluster of the sector that its buffer is
      for (0 for none). */
  datatype Status = Status(mode: Mode, mapFit: bool, file: Plain, chain: seq<int>, ok: bool, home: int)

  /** The files; the table; how many free clusters are known of; how many transfers have failed; and the files
      whose buffer may be out of date. */
  datatype Scene = Scene(files: seq<Status>, fat: seq<int>, freeClst: int, faults: nat, suspect: set<nat>)

  ghost function MomentAt(t: Scene, i: nat): Moment
    requires i < |t.files|
  {
    Moment(t.files[i].file, t.files[i].chain, t.fat, t.freeClst, t.faults)
  }

  /** The buffer of file `i` is for a sector in an allocated cluster, but not in one of its own. */
  ghost predicate Overtaken(t: Scene, i: nat)
    requires i < |t.files|
  {
    var st := t.files[i];
    st.ok && st.home !in st.chain && 2 <= st.home < |t.fat| && t.fat[st.home] != 0
  }

  ghost function AllOvertaken(t: Scene): (r: set<nat>)
    ensures forall i: nat :: i in r <==> i < |t.files| && Overtaken(t, i)
  {
    set i: nat | i < |t.files| && Overtaken(t, i)
  }

  /** Of the other files none has been overtaken. */
  ghost predicate Settled(t: Scene) {
    forall i: nat :: i < |t.files| && i !in t.suspect ==> !Overtaken(t, i)
  }

  /** What one operation on file `which` does: nothing if that has met an error before; else it is a step of the
      plain file, or meets an error. No other file changes. The buffer is still for the sector it was for, or
      for one of the file. A file whose buffered cluster is now something else's becomes suspect. */
  ghost predicate SharedStep(g: Geometry, cap: nat, t: Scene, which: nat, op: Op, out: Outcome, t': Scene) {
    && which < |t.files| == |t'.files| && which !in t.suspect && t'.files == t.files[which := t'.files[which]]
    && var st, st' := t.files[which], t'.files[which];
    && st'.mode == st.mode && st'.mapFit == st.mapFit
    && if !st.ok then out == Errored && t' == t
       else
         && t'.suspect == t.suspect + AllOvertaken(t')
         && Follows(MomentAt(t, which), MomentAt(t', which))
         && if !st'.ok then out == Errored
            else
              && RunStep(g, st.mode, cap, MomentAt(t, which), op, out, MomentAt(t', which))
              && (st'.home == st.home || (!op.TruncateOp? && (st'.home == 0 || st'.home in st'.chain)))
  }

  lemma StepSettles(g: Geometry, cap: nat, t: Scene, which: nat, op: Op, out: Outcome, t': Scene)
    requires SharedStep(g, cap, t, which, op, out, t') && Settled(t)
    ensures Settled(t') && t.faults <= t'.faults && t.suspect <= t'.suspect
  {
    hide RunStep;
  }

  /** Without a failed transfer a file becomes suspect only because another file takes the cluster of its buffer's
      sector. */
  lemma SuspectBy(g: Geometry, cap: nat, t: Scene, which: nat, op: Op, out: Outcome, t': Scene, i: nat)
    requires SharedStep(g, cap, t, which, op, out, t') && Settled(t) && t.faults == t'.faults
    requires IsChainOrEmpty(t.fat, t.files[which].chain) && i in t'.suspect && i !in t.suspect
    ensures i != which && i < |t.files| && t'.files[i] == t.files[i]
    ensures t.files[i].home in t'.files[which].chain && t.files[i].home !in t.files[which].chain
  {
    hide RunStep, IsChainOrEmpty;
    var m, m' := MomentAt(t, which), MomentAt(t', which);
    assert Overtaken(t', i) && !Overtaken(t, i);
    var home := t'.files[i].home;
    assert Exchanges(m.fat, m.chain, m'.fat, m'.chain);
    forall c | c in m.chain
      ensures 2 <= c < |m.fat| && m.fat[c] != 0
    {
      AllocatedIn(m.fat, m.chain, c);
    }
  }

  lemma AllocatedIn(fat: seq<int>, chain: seq<int>, c: int)
    requires IsChainOrEmpty(fat, chain) && c in chain
    ensures 2 <= c < |fat| && fat[c] != 0
  {
    AllocatedInChain(fat, chain, c);
  }

  // ------------------------------------------------------------------------------------------
  // Runs

  ghost predicate SharedRun(g: Geometry, t: Scene, ops: seq<(nat, Op)>, outs: seq<Outcome>, trace: seq<Scene>,
                            caps: seq<nat>) {
    && |caps| == |outs| <= |ops| && |trace| == |outs| + 1 && trace[0] == t && Settled(t)
    && (forall n :: 0 <= n < |outs| ==> SharedStep(g, caps[n], trace[n], ops[n].0, ops[n].1, outs[n], trace[n + 1]))
    && (forall n :: 0 <= n <= |outs| ==> Proper(trace[n]))
  }

  /** The files that are free of errors have proper chains. */
  ghost predicate Proper(t: Scene) {
    forall i :: 0 <= i < |t.files| && t.files[i].ok && i !in t.suspect ==> IsChainOrEmpty(t.fat, t.files[i].chain)
  }

  lemma SharedRunMore(g: Geometry, t: Scene, ops: seq<(nat, Op)>, outs: seq<Outcome>, trace: seq<Scene>, caps: seq<nat>,
                      out: Outcome, t': Scene, cap: nat)
    requires SharedRun(g, t, ops, outs, trace, caps) && |outs| < |ops| && Proper(t')
    requires SharedStep(g, cap, trace[|outs|], ops[|outs|].0, ops[|outs|].1, out, t')
    ensures SharedRun(g, t, ops, outs + [out], trace + [t'], caps + [cap])
  {
    hide SharedStep, Proper, Settled;
  }

  lemma Begun(g: Geometry, ops: seq<(nat, Op)>, t: Scene)
    requires Settled(t) && Proper(t)
    ensures SharedRun(g, t, ops, [], [t], [])
  {
  }

  lemma {:induction false} Onward(g: Geometry, t: Scene, ops: seq<(nat, Op)>, outs: seq<Outcome>, trace: seq<Scene>,
                                  caps: seq<nat>, n: nat)
    requires SharedRun(g, t, ops, outs, trace, caps) && n <= |outs|
    ensures Settled(trace[n]) && Proper(trace[n]) && |trace[n].files| == |t.files|
    ensures t.faults <= trace[n].faults
  {
    hide SharedStep, Settled, Proper;
    if n > 0 {
      Onward(g, t, ops, outs, trace, caps, n - 1);
      assert SharedStep(g, caps[n - 1], trace[n - 1], ops[n - 1].0, ops[n - 1].1, outs[n - 1], trace[n]);
      StepSettles(g, caps[n - 1], trace[n - 1], ops[n - 1].0, ops[n - 1].1, outs[n - 1], trace[n]);
      SameFiles(g, caps[n - 1], trace[n - 1], ops[n - 1].0, ops[n - 1].1, outs[n - 1], trace[n]);
    }
  }

  lemma SameFiles(g: Geometry, cap: nat, t: Scene, which: nat, op: Op, out: Outcome, t': Scene)
    requires SharedStep(g, cap, t, which, op, out, t')
    ensures |t'.files| == |t.files|
  {
  }

  lemma {:induction false} FaultsGrow(g: Geometry, t: Scene, ops: seq<(nat, Op)>, outs: seq<Outcome>,
                                      trace: seq<Scene>, caps: seq<nat>,
                                      n: nat)
    requires SharedRun(g, t, ops, outs, trace, caps) && n <= |outs|
    ensures trace[n].faults <= trace[|outs|].faults
    decreases |outs| - n
  {
    hide SharedStep, Settled, Proper;
    if n < |outs| {
      FaultsGrow(g, t, ops, outs, trace, caps, n + 1);
      Onward(g, t, ops, outs, trace, caps, n);
      StepSettles(g, caps[n], trace[n], ops[n].0, ops[n].1, outs[n], trace[n + 1]);
    }
  }

  /** Without a failed transfer a file that alone is worked on never becomes suspect, whatever truncations there
      are. */
  lemma {:induction false} AloneTrusted(g: Geometry, t: Scene, ops: seq<(nat, Op)>, outs: seq<Outcome>,
                                        trace: seq<Scene>, caps: seq<nat>,
                                        i: nat, n: nat)
    requires SharedRun(g, t, ops, outs, trace, caps) && n <= |outs| && trace[|outs|].faults == t.faults
    requires i !in t.suspect && forall k :: 0 <= k < |ops| ==> ops[k].0 == i
    ensures i !in trace[n].suspect
  {
    hide SharedStep, Settled, Proper;
    if n > 0 {
      AloneTrusted(g, t, ops, outs, trace, caps, i, n - 1);
      Onward(g, t, ops, outs, trace, caps, n - 1);
      FaultsGrow(g, t, ops, outs, trace, caps, n);
      StepSettles(g, caps[n - 1], trace[n - 1], i, ops[n - 1].1, outs[n - 1], trace[n]);
      if i in trace[n].suspect {
        OwnProper(trace[n - 1], i, g, caps[n - 1], ops[n - 1].1, outs[n - 1], trace[n]);
        SuspectBy(g, caps[n - 1], trace[n - 1], i, ops[n - 1].1, outs[n - 1], trace[n], i);
      }
    }
  }

  lemma OwnProper(t: Scene, i: nat, g: Geometry, cap: nat, op: Op, out: Outcome, t': Scene)
    requires SharedStep(g, cap, t, i, op, out, t') && Proper(t) && i in t'.suspect && i !in t.suspect
    ensures IsChainOrEmpty(t.fat, t.files[i].chain)
  {
    hide RunStep;
  }

  /** A write in a run, on a file without a link map and in a step without a failed transfer, stores all that there
      is room for: in the clusters of the file and the free ones, if the number of those is right or not known;
      and in any case it falls short only when it has taken all free clusters, or as many as were known of. */
  lemma StoresWhatFits(g: Geometry, t: Scene, ops: seq<(nat, Op)>, outs: seq<Outcome>, trace: seq<Scene>,
                       caps: seq<nat>, n: nat)
    requires SharedRun(g, t, ops, outs, trace, caps) && n < |outs| && ops[n].1.WriteOp? && g.nFatEnt >= 2
    requires ops[n].0 < |trace[n].files| && trace[n].files[ops[n].0].ok && ops[n].0 < |trace[n + 1].files|
              && trace[n + 1].files[ops[n].0].ok
    requires trace[n].files[ops[n].0].mode.canWrite && !trace[n].files[ops[n].0].mode.linked
              && trace[n].faults == trace[n + 1].faults
    ensures Stores(g, trace[n], ops[n].0, ops[n].1.bytes, outs[n])
  {
    hide Settled, Proper, SharedStep, Stores;
    Onward(g, t, ops, outs, trace, caps, n);
    StepStores(g, caps[n], trace[n], ops[n].0, ops[n].1.bytes, outs[n], trace[n + 1]);
  }

  ghost predicate Stores(g: Geometry, t: Scene, which: nat, bytes: seq<byte>, out: Outcome)
    requires which < |t.files|
  {
    var st := t.files[which];
    var cb, free := g.csize * SS, Zeros(t.fat);
    && st.file.pos < TWO32 && |bytes| < TWO32 && out.Written? && out.count <= Fitting(st.file.pos, |bytes|)
    && (CountRight(g, MomentAt(t, which)) ==>
          (|st.chain| + free) * cb >= st.file.pos
          && out == Written(Min(Fitting(st.file.pos, |bytes|), (|st.chain| + free) * cb - st.file.pos)))
    && (out.count < Fitting(st.file.pos, |bytes|) ==>
          st.file.pos + out.count == (|st.chain| + free) * cb
          || (t.freeClst <= g.nFatEnt - 2 && st.file.pos + out.count == (|st.chain| + t.freeClst) * cb))
  }

  lemma StepStores(g: Geometry, cap: nat, t: Scene, which: nat, bytes: seq<byte>, out: Outcome, t': Scene)
    requires SharedStep(g, cap, t, which, WriteOp(bytes), out, t') && Proper(t) && g.nFatEnt >= 2
    requires t.files[which].ok && t'.files[which].ok
    requires t.files[which].mode.canWrite && !t.files[which].mode.linked && t.faults == t'.faults
    ensures Stores(g, t, which, bytes, out)
  {
    hide Settled, Proper, Follows, Takes, IsChainOrEmpty, Zeros, NoRoom, AllOvertaken, CountRight;
    var m, m' := MomentAt(t, which), MomentAt(t', which);
    assert IsChainOrEmpty(m.fat, m.chain) by { ProperOne(t, which); }
    assert RunStep(g, t.files[which].mode, cap, m, WriteOp(bytes), out, m');
    if out.count < Fitting(m.file.pos, |bytes|) {
      FallsShort(g, t.files[which].mode, cap, m, WriteOp(bytes), out, m');
    }
  }

  lemma ProperOne(t: Scene, i: nat)
    requires Proper(t) && i < |t.files| && t.files[i].ok && i !in t.suspect
    ensures IsChainOrEmpty(t.fat, t.files[i].chain)
  {
  }

  /** A read leaves the table, and the clusters and the content of the file, as they are. */
  lemma ReadKeeps(g: Geometry, cap: nat, t: Scene, which: nat, n: u32, out: Outcome, t': Scene)
    requires SharedStep(g, cap, t, which, ReadOp(n), out, t') && t'.files[which].ok
    ensures t.files[which].ok && t'.fat == t.fat && t'.freeClst == t.freeClst
              && t'.files[which].mode == t.files[which].mode
    ensures t'.files[which].chain == t.files[which].chain && t'.files[which].file.content == t.files[which].file.content
    ensures t.files[which].file == Plain([], 0) ==> t'.files[which].file.pos == 0
  {
    hide Follows, NoRoom, CountRight, Overtaken, AllOvertaken, Room, Zeros;
  }

  lemma StayedOk(g: Geometry, cap: nat, t: Scene, which: nat, op: Op, out: Outcome, t': Scene)
    requires SharedStep(g, cap, t, which, op, out, t') && t'.files[which].ok
    ensures t.files[which].ok && which < |t.files| == |t'.files|
  {
    hide RunStep;
  }

  lemma SomeOf(n: nat, k: nat, cb: nat, len: nat)
    requires k > 0 && cb > 0 && len > 0
    ensures len < TWO32 && n >= Fitting(0, len) ==> n > 0
    ensures n == k * cb ==> n > 0
  {
    Arith.MulMono(1, k, cb);
  }

  lemma ReadThenWrite(g: Geometry, cap: nat, cap': nat, t: Scene, which: nat, bytes: seq<byte>, out: Outcome, t': Scene,
                      out': Outcome, t'': Scene)
    requires SharedStep(g, cap, t, which, ReadOp(0), out, t')
              && SharedStep(g, cap', t', which, WriteOp(bytes), out', t'')
    requires Proper(t') && t'.faults == t''.faults && g.csize > 0 && g.nFatEnt >= 2 && bytes != []
    requires t''.files[which].ok && t.files[which].mode == Mode(true, true, false)
    requires t.files[which].file == Plain([], 0) && t.files[which].chain == [] && Zeros(t.fat) > 0 && t.freeClst > 0
    ensures out'.Written? && out'.count > 0
  {
    hide Settled, Proper, SharedStep, CountRight, Zeros, Fitting;
    StayedOk(g, cap', t', which, WriteOp(bytes), out', t'');
    ReadKeeps(g, cap, t, which, 0, out, t');
    StepStores(g, cap', t', which, bytes, out', t'');
    SomeOf(out'.count, Zeros(t.fat), g.csize * SS, |bytes|);
    SomeOf(out'.count, t.freeClst, g.csize * SS, |bytes|);
  }

  /** So a write to an empty file is not lost while there are free clusters, even between other operations on the
      file. */
  lemma NotIdle(g: Geometry, t: Scene, which: nat, bytes: seq<byte>, outs: seq<Outcome>, trace: seq<Scene>,
                caps: seq<nat>)
    requires SharedRun(g, t, [(which, ReadOp(0)), (which, WriteOp(bytes)), (which, ReadOp(0))], outs, trace, caps)
              && |outs| == 3
    requires trace[3].faults == t.faults && g.csize > 0 && g.nFatEnt >= 2 && which < |t.files| && bytes != []
    requires trace[2].files[which].ok && t.files[which].mode == Mode(true, true, false)
    requires t.files[which].file == Plain([], 0) && t.files[which].chain == [] && Zeros(t.fat) > 0 && t.freeClst > 0
    ensures outs[1].Written? && outs[1].count > 0
  {
    hide Settled, Proper, Zeros, SharedStep;
    var ops := [(which, ReadOp(0)), (which, WriteOp(bytes)), (which, ReadOp(0))];
    assert SharedStep(g, caps[0], trace[0], ops[0].0, ops[0].1, outs[0], trace[1]);
    assert SharedStep(g, caps[1], trace[1], ops[1].0, ops[1].1, outs[1], trace[2]);
    FaultsGrow(g, t, ops, outs, trace, caps, 1);
    FaultsGrow(g, t, ops, outs, trace, caps, 2);
    Onward(g, t, ops, outs, trace, caps, 1);
    Onward(g, t, ops, outs, trace, caps, 2);
    ReadThenWrite(g, caps[0], caps[1], t, which, bytes, outs[0], trace[1], outs[1], trace[2]);
  }
}
