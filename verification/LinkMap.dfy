/** The cluster link map table of fast seek: the chain of a file as a list of runs of adjacent
    clusters. `tbl[0]` is the size of the table; then (length, first cluster) for each run; then 0. */
module LinkMap {
  import opened Words
  import opened Geometry

  /** From index `t` on the table lists the chain `chain`. */
  ghost predicate Encodes(tbl: seq<u32>, t: nat, chain: seq<int>)
    decreases |chain|
  {
    if chain == [] then t < |tbl| && tbl[t] == 0
    else
      && t + 1 < |tbl|
      && 0 < tbl[t] <= |chain|
      && (forall i :: 0 <= i < tbl[t] ==> chain[i] == tbl[t + 1] + i)
      && Encodes(tbl, t + 2, chain[tbl[t]..])
  }

  /** What the table has at index `t`: the end, or the first run. */
  lemma EncodesFirst(tbl: seq<u32>, t: nat, chain: seq<int>)
    requires Encodes(tbl, t, chain)
    ensures t < |tbl| && (tbl[t] == 0 <==> chain == [])
    ensures tbl[t] != 0 ==>
              && t + 1 < |tbl| && tbl[t] <= |chain| && Encodes(tbl, t + 2, chain[tbl[t]..])
              && forall i :: 0 <= i < tbl[t] ==> chain[i] == tbl[t + 1] + i
  {
  }

  /** clmt_clust: the cluster that holds file offset `ofs`, from the table. */
  method ClmtClust(g: Geometry, tbl: array<u32>, ofs: u32, ghost chain: seq<int>) returns (clst: u32)
    requires g.csize > 0 && Encodes(tbl[..], 1, chain) && (forall k :: 0 <= k < |chain| ==> 0 <= chain[k] < TWO32)
    ensures clst == if ofs / SS / g.csize < |chain| then chain[ofs / SS / g.csize] else 0
  {
    hide Encodes;
    var t := 1;
    var cl := ofs / SS / g.csize;
    ghost var order := cl;
    ghost var k := 0;
    while true
      invariant 0 <= k <= |chain| && 0 <= cl && order == k + cl && 1 <= t
      invariant Encodes(tbl[..], t, chain[k..])
      decreases |chain| - k
    {
      EncodesFirst(tbl[..], t, chain[k..]);
      var ncl := tbl[t];
      t := t + 1;
      if ncl == 0 { return 0; }
      if cl < ncl { break; }
      assert chain[k..][ncl..] == chain[k + ncl..];
      cl := cl - ncl;
      k := k + ncl;
      t := t + 1;
    }
    assert chain[k..][cl] == chain[order];
    clst := cl + tbl[t];
  }

  /** Length of the longest run of adjacent clusters at the start of a chain. */
  function RunLength(chain: seq<int>): (n: nat)
    requires chain != []
    ensures 1 <= n <= |chain|
    ensures forall i :: 0 <= i < n ==> chain[i] == chain[0] + i
    ensures n < |chain| ==> chain[n] != chain[0] + n
  {
    if |chain| > 1 && chain[1] == chain[0] + 1 then
      assert forall i :: 0 < i < |chain| ==> chain[i] == chain[1..][i - 1];
      1 + RunLength(chain[1..])
    else 1
  }

  /** Number of runs of adjacent clusters in a chain. */
  function RunCount(chain: seq<int>): nat {
    if chain == [] then 0 else 1 + RunCount(chain[RunLength(chain)..])
  }

  /** The run of adjacent clusters at the start of a chain is the one that cannot be continued. */
  lemma RunLengthIs(chain: seq<int>, n: nat)
    requires 1 <= n <= |chain| && (forall i :: 0 <= i < n ==> chain[i] == chain[0] + i)
    requires n < |chain| ==> chain[n] != chain[0] + n
    ensures RunLength(chain) == n
  {
    var m := RunLength(chain);
    assert !(m < n) && !(n < m);
  }

  lemma {:induction false} RunCountBound(chain: seq<int>)
    ensures RunCount(chain) <= |chain|
  {
    if chain != [] {
      RunCountBound(chain[RunLength(chain)..]);
    }
  }

  /** Entries `t` to `u` of the table list exactly `chain`. */
  ghost predicate Listed(tbl: seq<u32>, t: nat, chain: seq<int>, u: nat)
    decreases |chain|
  {
    if chain == [] then t == u
    else
      && t + 1 < u <= |tbl|
      && 0 < tbl[t] <= |chain|
      && (forall i :: 0 <= i < tbl[t] ==> chain[i] == tbl[t + 1] + i)
      && Listed(tbl, t + 2, chain[tbl[t]..], u)
  }

  /** Another run at the end. */
  lemma {:induction false} ListedMore(tbl: seq<u32>, tbl': seq<u32>, t: nat, chain: seq<int>, u: nat, run: seq<int>)
    requires Listed(tbl, t, chain, u) && u <= |tbl| && u + 1 < |tbl'| && tbl'[t..u] == tbl[t..u] && t <= u
    requires 0 < |run| == tbl'[u] && forall i :: 0 <= i < |run| ==> run[i] == tbl'[u + 1] + i
    ensures Listed(tbl', t, chain + run, u + 2)
    decreases |chain|
  {
    if chain == [] {
      assert chain + run == run;
      assert run[|run|..] == [];
    } else {
      var n := tbl[t];
      assert tbl'[t] == tbl'[t..u][0] == tbl[t..u][0] == n && tbl'[t + 1] == tbl'[t..u][1] == tbl[t..u][1];
      assert tbl'[t + 2..u] == tbl'[t..u][2..] && tbl[t + 2..u] == tbl[t..u][2..];
      ListedMore(tbl, tbl', t + 2, chain[n..], u, run);
      assert (chain + run)[n..] == chain[n..] + run;
    }
  }

  /** With a 0 after it the list is complete. */
  lemma {:induction false} ListedEnd(tbl: seq<u32>, t: nat, chain: seq<int>, u: nat)
    requires Listed(tbl, t, chain, u) && u < |tbl| && tbl[u] == 0
    ensures Encodes(tbl, t, chain)
    decreases |chain|
  {
    if chain != [] {
      ListedEnd(tbl, t + 2, chain[tbl[t]..], u);
    }
  }

  /** The list does not depend on what comes after it, nor on what comes before. */
  lemma {:induction false} ListedSame(tbl: seq<u32>, tbl': seq<u32>, t: nat, chain: seq<int>, u: nat)
    requires Listed(tbl, t, chain, u) && t <= u <= |tbl| && u <= |tbl'| && tbl'[t..u] == tbl[t..u]
    ensures Listed(tbl', t, chain, u)
    decreases |chain|
  {
    if chain != [] {
      assert tbl'[t] == tbl'[t..u][0] == tbl[t..u][0] && tbl'[t + 1] == tbl'[t..u][1] == tbl[t..u][1];
      assert tbl'[t + 2..u] == tbl'[t..u][2..] && tbl[t + 2..u] == tbl[t..u][2..];
      ListedSame(tbl, tbl', t + 2, chain[tbl[t]..], u);
    }
  }
}
