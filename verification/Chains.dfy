/** What a file allocation table means: disjoint lists of clusters, each ended by an end mark. */
module Chains {
  import opened Words
  import opened Geometry

  /** `path` is the list of clusters that starts at `path[0]` and ends at an end mark. */
  ghost predicate IsChain(fat: seq<int>, path: seq<int>) {
    && path != []
    && (forall i :: 0 <= i < |path| ==> 2 <= path[i] < |fat|)
    && (forall i :: 0 <= i < |path| - 1 ==> fat[path[i]] == path[i + 1])
    && fat[path[|path| - 1]] >= |fat|
  }

  /** A chain, or the chain of a file without clusters. */
  ghost predicate IsChainOrEmpty(fat: seq<int>, path: seq<int>) {
    path == [] || IsChain(fat, path)
  }

  lemma ChainSuffix(fat: seq<int>, path: seq<int>, k: nat)
    requires IsChain(fat, path) && k < |path|
    ensures IsChain(fat, path[k..])
  {
    var tail := path[k..];
    forall i | 0 <= i < |tail| - 1
      ensures fat[tail[i]] == tail[i + 1]
    {
      assert path[k + i] == tail[i];
    }
  }

  lemma SameNext(fat: seq<int>, p: seq<int>, q: seq<int>)
    requires IsChain(fat, p) && IsChain(fat, q) && p[0] == q[0]
    ensures |p| > 1 <==> |q| > 1
    ensures |p| > 1 ==> p[1] == q[1]
    ensures |p| == 1 ==> p == q
  {
    assert |p| > 1 ==> fat[p[0]] == p[1];
    assert |q| > 1 ==> fat[q[0]] == q[1];
  }

  /** A chain is determined by its first cluster. */
  lemma {:induction false} ChainUnique(fat: seq<int>, p: seq<int>, q: seq<int>)
    requires IsChain(fat, p) && IsChain(fat, q) && p[0] == q[0]
    ensures p == q
  {
    SameNext(fat, p, q);
    if |p| > 1 {
      hide IsChain;
      ChainSuffix(fat, p, 1);
      ChainSuffix(fat, q, 1);
      ChainUnique(fat, p[1..], q[1..]);
      assert p == [p[0]] + p[1..] && q == [q[0]] + q[1..];
    }
  }

  /** No cluster occurs twice: a list that reaches an end mark has no cycle. */
  lemma ChainAcyclic(fat: seq<int>, path: seq<int>, i: nat, j: nat)
    requires IsChain(fat, path) && i < j < |path|
    ensures path[i] != path[j]
  {
    if path[i] == path[j] {
      ChainSuffix(fat, path, i);
      ChainSuffix(fat, path, j);
      ChainUnique(fat, path[i..], path[j..]);
    }
  }

  /** A chain is still one after changes to entries it does not contain. */
  lemma ChainFrame(fat: seq<int>, fat': seq<int>, path: seq<int>)
    requires IsChain(fat, path) && |fat'| == |fat|
    requires forall c :: c in path ==> fat'[c] == fat[c]
    ensures IsChain(fat', path)
  {
    assert forall i :: 0 <= i < |path| ==> path[i] in path;
  }

  /** The number of free clusters. */
  function Zeros(fat: seq<int>): (n: nat)
    ensures |fat| >= 2 ==> n <= |fat| - 2
  {
    if |fat| <= 2 then 0
    else Zeros(fat[..|fat| - 1]) + if fat[|fat| - 1] == 0 then 1 else 0
  }

  function Bit(b: bool): nat { if b then 1 else 0 }

  lemma {:induction false} ZerosUpdate(fat: seq<int>, c: nat, val: int)
    requires 2 <= c < |fat|
    ensures Zeros(fat[c := val]) == Zeros(fat) - Bit(fat[c] == 0) + Bit(val == 0)
  {
    var n := |fat| - 1;
    if c == n {
      assert fat[c := val][..n] == fat[..n];
    } else {
      ZerosUpdate(fat[..n], c, val);
      assert fat[c := val][..n] == fat[..n][c := val];
    }
  }

  lemma NoZeros(fat: seq<int>)
    requires |fat| >= 2
    ensures Zeros(fat[..2]) == 0
  {
  }

  lemma ZerosNext(fat: seq<int>, c: nat)
    requires 2 <= c < |fat|
    ensures Zeros(fat[..c + 1]) == Zeros(fat[..c]) + Bit(fat[c] == 0)
  {
    assert fat[..c + 1][..c] == fat[..c];
  }

  /** Some cluster has the entry 1, which no proper table has. */
  ghost predicate HasOne(fat: seq<int>) {
    exists c :: 2 <= c < |fat| && fat[c] == 1
  }

  ghost predicate NoneFree(fat: seq<int>) {
    forall c :: 2 <= c < |fat| ==> fat[c] != 0
  }

  lemma {:induction false} ZerosNone(fat: seq<int>)
    ensures Zeros(fat) == 0 <==> NoneFree(fat)
  {
    if |fat| > 2 {
      var n := |fat| - 1;
      ZerosNone(fat[..n]);
      assert forall c :: 2 <= c < n ==> fat[..n][c] == fat[c];
    }
  }

  /** The number of zero entries, the two that belong to no cluster included. */
  function AllZeros(fat: seq<int>): nat {
    if |fat| == 0 then 0 else AllZeros(fat[..|fat| - 1]) + Bit(fat[|fat| - 1] == 0)
  }

  lemma {:induction false} AllZerosSplit(fat: seq<int>)
    requires |fat| >= 2
    ensures AllZeros(fat) == Zeros(fat) + Bit(fat[0] == 0) + Bit(fat[1] == 0)
  {
    var n := |fat| - 1;
    if n >= 2 {
      AllZerosSplit(fat[..n]);
    } else {
      var one := fat[..n];
      assert one[..0] == [];
      assert AllZeros(one) == Bit(fat[0] == 0);
    }
  }

  lemma AllZerosStep(fat: seq<int>, e: nat)
    requires e < |fat|
    ensures AllZeros(fat[..e + 1]) == AllZeros(fat[..e]) + Bit(fat[e] == 0)
  {
    assert fat[..e + 1][..e] == fat[..e];
  }

  /** Freeing the list at `c`, on any table at all: stop at a free cluster, fail at an entry 1,
      finish at an end mark. Each step turns a nonzero entry into zero, so even a cyclic list
      comes to an end. */
  function Freed(fat: seq<int>, c: int): (r: (FResult, seq<int>))
    requires 2 <= c < |fat|
    ensures |r.1| == |fat|
    decreases |fat| - Zeros(fat)
  {
    ZerosUpdate(fat, c, 0);
    if fat[c] == 0 then (Ok, fat)
    else if fat[c] < 2 then (IntErr, fat)
    else if fat[c] >= |fat| then (Ok, fat[c := 0])
    else Freed(fat[c := 0], fat[c])
  }

  /** `fat` with the entries of the clusters in `path` set to zero. */
  function Zeroed(fat: seq<int>, path: seq<int>): (r: seq<int>)
    ensures |r| == |fat|
    ensures forall c :: 0 <= c < |fat| ==> r[c] == if c in path then 0 else fat[c]
  {
    seq(|fat|, c requires 0 <= c < |fat| => if c in path then 0 else fat[c])
  }

  /** On a proper chain, freeing succeeds and frees exactly the chain. */
  lemma {:induction false} FreedChain(fat: seq<int>, path: seq<int>)
    requires IsChain(fat, path)
    ensures Freed(fat, path[0]) == (Ok, Zeroed(fat, path))
    decreases |path|
  {
    var c := path[0];
    var fat1 := fat[c := 0];
    if |path| == 1 {
      assert fat1 == Zeroed(fat, path);
    } else {
      FreeFirst(fat, path);
      FreedChain(fat1, path[1..]);
    }
  }

  /** Freeing the first of several clusters leaves the rest of the chain. */
  lemma FreeFirst(fat: seq<int>, path: seq<int>)
    requires IsChain(fat, path) && |path| > 1
    ensures fat[path[0]] == path[1]
    ensures IsChain(fat[path[0] := 0], path[1..])
    ensures Zeroed(fat[path[0] := 0], path[1..]) == Zeroed(fat, path)
  {
    ChainSuffix(fat, path, 1);
    forall i | 1 <= i < |path|
      ensures path[i] != path[0]
    {
      ChainAcyclic(fat, path, 0, i);
    }
    var rest := path[1..];
    assert path == [path[0]] + rest;
    ChainFrame(fat, fat[path[0] := 0], rest);
  }

  lemma {:induction false} AllocatedInChain(fat: seq<int>, path: seq<int>, c: int)
    requires IsChain(fat, path) && c in path
    ensures 2 <= c < |fat| && fat[c] >= 2
  {
    var i :| 0 <= i < |path| && path[i] == c;
    if i == |path| - 1 {
      assert fat[path[|path| - 1]] >= |fat|;
    } else {
      assert fat[path[i]] == path[i + 1];
    }
  }

  /** The table after free cluster `c` has been appended to the list `path`, if there is one. */
  function Appended(fat: seq<int>, path: seq<int>, c: int, eoc: int): (r: seq<int>)
    requires 0 <= c < |fat| && (path != [] ==> 0 <= path[|path| - 1] < |fat|)
    ensures |r| == |fat|
  {
    if path == [] then fat[c := eoc] else fat[c := eoc][path[|path| - 1] := c]
  }

  /** A chain grows by a free cluster at its end. */
  lemma ChainGrows(fat: seq<int>, path: seq<int>, c: int, eoc: int)
    requires IsChainOrEmpty(fat, path) && 2 <= c < |fat| && fat[c] == 0 && eoc >= |fat|
    ensures c !in path && (path != [] ==> 2 <= path[|path| - 1] < |fat|)
    ensures IsChain(Appended(fat, path, c, eoc), path + [c])
    ensures Replaces(fat, path, Appended(fat, path, c, eoc), path + [c])
  {
    var l := |path| - 1;
    var fat' := Appended(fat, path, c, eoc);
    if path == [] {
      assert IsChain(fat', [c]);
      return;
    }
    assert path[l] in path;
    if c in path {
      AllocatedInChain(fat, path, c);
    }
    var path' := path + [c];
    forall i | 0 <= i < |path'| - 1
      ensures fat'[path'[i]] == path'[i + 1]
    {
      assert path[i] in path;
      if i < l {
        ChainAcyclic(fat, path, i, l);
      }
    }
  }

  /** Cutting a chain at position `n` and freeing the rest. */
  lemma ChainCut(fat: seq<int>, path: seq<int>, n: nat, eoc: int)
    requires IsChain(fat, path) && 0 < n < |path| && eoc >= |fat|
    ensures
      var cut := fat[path[n - 1] := eoc];
      && Freed(cut, path[n]) == (Ok, Zeroed(cut, path[n..]))
      && IsChain(Zeroed(cut, path[n..]), path[..n])
  {
    var cut := fat[path[n - 1] := eoc];
    var tail := path[n..];
    ChainSuffix(fat, path, n);
    PartsApart(fat, path, n);
    ChainFrame(fat, cut, tail);
    FreedChain(cut, tail);
    var fat' := Zeroed(cut, tail);
    var head := path[..n];
    forall i | 0 <= i < n
      ensures fat'[head[i]] == if i < n - 1 then head[i + 1] else eoc
    {
      assert head[i] in head;
      if i < n - 1 {
        ChainAcyclic(fat, path, i, n - 1);
        assert fat[path[i]] == path[i + 1];
      }
    }
  }

  /** The two parts of a chain have no common cluster. */
  lemma PartsApart(fat: seq<int>, path: seq<int>, n: nat)
    requires IsChain(fat, path) && n <= |path|
    ensures Apart(path[..n], path[n..])
  {
    forall c | c in path[..n]
      ensures c !in path[n..]
    {
      if c in path[n..] {
        var i :| 0 <= i < n && path[i] == c;
        var j :| 0 <= j < |path| - n && path[n..][j] == c;
        ChainAcyclic(fat, path, i, n + j);
      }
    }
  }

  /** Freeing a chain makes as many clusters free as it has. */
  lemma {:induction false} ZerosZeroed(fat: seq<int>, path: seq<int>)
    requires IsChain(fat, path)
    ensures Zeros(Zeroed(fat, path)) == Zeros(fat) + |path|
    decreases |path|
  {
    var c := path[0];
    AllocatedInChain(fat, path, c);
    ZerosUpdate(fat, c, 0);
    if |path| == 1 {
      assert fat[c := 0] == Zeroed(fat, path);
    } else {
      FreeFirst(fat, path);
      ZerosZeroed(fat[c := 0], path[1..]);
    }
  }

  // ------------------------------------------------------------------------------------------
  // The whole table

  /** Two lists without a common cluster. */
  ghost predicate Apart(p: seq<int>, q: seq<int>) {
    forall c :: c in p ==> c !in q
  }

  ghost predicate AllChains(fat: seq<int>, chains: seq<seq<int>>) {
    forall k :: 0 <= k < |chains| ==> IsChainOrEmpty(fat, chains[k])
  }

  ghost predicate AllApart(chains: seq<seq<int>>) {
    forall k, m :: 0 <= k < |chains| && 0 <= m < |chains| && k != m ==> Apart(chains[k], chains[m])
  }

  ghost predicate Covered(chains: seq<seq<int>>, c: int) {
    exists k :: 0 <= k < |chains| && c in chains[k]
  }

  /** The table is exactly the given lists, one for each file (empty for a file without clusters):
      disjoint chains that together hold every allocated cluster. */
  ghost predicate Consists(fat: seq<int>, chains: seq<seq<int>>) {
    && AllChains(fat, chains)
    && AllApart(chains)
    && forall c :: 2 <= c < |fat| && fat[c] != 0 ==> Covered(chains, c)
  }

  /** The owner of the clusters `p` now owns the clusters `q`: those it gains were free, those it
      loses become free, and no entry outside both lists changes. */
  ghost predicate Exchanges(fat: seq<int>, p: seq<int>, fat': seq<int>, q: seq<int>) {
    && |fat'| == |fat|
    && (forall c :: c in q && c !in p ==> 2 <= c < |fat| && fat[c] == 0)
    && (forall c :: 2 <= c < |fat| && c in p && c !in q ==> fat'[c] == 0)
    && (forall c :: 0 <= c < |fat| && c !in p && c !in q ==> fat'[c] == fat[c])
  }

  lemma ExchangesTrans(fat: seq<int>, p: seq<int>, fat': seq<int>, q: seq<int>, fat'': seq<int>, r: seq<int>)
    requires Exchanges(fat, p, fat', q) && Exchanges(fat', q, fat'', r)
    ensures Exchanges(fat, p, fat'', r)
  {
    forall c | c in r && c !in p
      ensures 2 <= c < |fat| && fat[c] == 0
    {
      if c !in q {
        assert fat'[c] == 0;
      }
    }
  }

  /** `q` is a proper list in place of `p`. */
  ghost predicate Replaces(fat: seq<int>, p: seq<int>, fat': seq<int>, q: seq<int>) {
    Exchanges(fat, p, fat', q) && IsChainOrEmpty(fat', q)
  }

  lemma ReplacesChain(fat: seq<int>, p: seq<int>, fat': seq<int>, q: seq<int>)
    requires Replaces(fat, p, fat', q)
    ensures IsChainOrEmpty(fat', q)
  {
  }

  lemma ReplacesTrans(fat: seq<int>, p: seq<int>, fat': seq<int>, q: seq<int>, fat'': seq<int>, r: seq<int>)
    requires Replaces(fat, p, fat', q) && Replaces(fat', q, fat'', r)
    ensures Replaces(fat, p, fat'', r)
  {
    ExchangesTrans(fat, p, fat', q, fat'', r);
  }

  /** Conservation: what the owner gains the volume loses, and the other way round. */
  lemma Conserved(fat: seq<int>, p: seq<int>, fat': seq<int>, q: seq<int>)
    requires IsChainOrEmpty(fat, p) && Replaces(fat, p, fat', q)
    ensures Zeros(fat') + |q| == Zeros(fat) + |p|
  {
    hide Zeros;
    AllFreed(fat, p);
    AllFreed(fat', q);
    assert Zeroed(fat, p) == Zeroed(fat', q) by { SameFreed(fat, p, fat', q); }
  }

  lemma AllFreed(fat: seq<int>, p: seq<int>)
    requires IsChainOrEmpty(fat, p)
    ensures Zeros(Zeroed(fat, p)) == Zeros(fat) + |p|
  {
    if p == [] {
      assert Zeroed(fat, p) == fat;
    } else {
      ZerosZeroed(fat, p);
    }
  }

  /** Without their owner's clusters the two tables are the same. */
  lemma SameFreed(fat: seq<int>, p: seq<int>, fat': seq<int>, q: seq<int>)
    requires IsChainOrEmpty(fat, p) && Replaces(fat, p, fat', q)
    ensures Zeroed(fat, p) == Zeroed(fat', q)
  {
    forall c | 0 <= c < |fat| && c in p
      ensures 2 <= c
    {
      AllocatedInChain(fat, p, c);
    }
  }

  lemma OtherChain(fat: seq<int>, p: seq<int>, fat': seq<int>, q: seq<int>, r: seq<int>)
    requires Replaces(fat, p, fat', q) && IsChainOrEmpty(fat, r) && Apart(p, r)
    ensures IsChainOrEmpty(fat', r) && Apart(q, r) && Apart(r, q)
  {
    forall c | c in r
      ensures 2 <= c < |fat| && c !in q && c !in p
    {
      AllocatedInChain(fat, r, c);
    }
    if r != [] {
      ChainFrame(fat, fat', r);
    }
  }

  /** In such a table no entry is 1. */
  lemma NoOnes(fat: seq<int>, chains: seq<seq<int>>)
    requires Consists(fat, chains)
    ensures !HasOne(fat)
  {
    if HasOne(fat) {
      var c :| 2 <= c < |fat| && fat[c] == 1;
      assert Covered(chains, c);
      var k :| 0 <= k < |chains| && c in chains[k];
      AllocatedInChain(fat, chains[k], c);
      assert false;
    }
  }

  lemma ReplaceChain(fat: seq<int>, chains: seq<seq<int>>, k: nat, fat': seq<int>, q: seq<int>)
    requires Consists(fat, chains) && k < |chains| && Replaces(fat, chains[k], fat', q)
    ensures Consists(fat', chains[k := q])
  {
    var chains' := chains[k := q];
    forall m | 0 <= m < |chains| && m != k
      ensures IsChainOrEmpty(fat', chains[m]) && Apart(q, chains[m]) && Apart(chains[m], q)
    {
      OtherChain(fat, chains[k], fat', q, chains[m]);
    }
    assert AllChains(fat', chains');
    assert AllApart(chains');
    forall c | 2 <= c < |fat'| && fat'[c] != 0
      ensures Covered(chains', c)
    {
      if c in q {
        assert c in chains'[k];
      } else {
        assert Covered(chains, c);
        var m :| 0 <= m < |chains| && c in chains[m];
        assert c in chains'[m];
      }
    }
  }

  /** The table after create_chain has given free cluster `c` to file `k`. */
  lemma AppendCluster(fat: seq<int>, chains: seq<seq<int>>, k: nat, c: int, eoc: int)
    requires Consists(fat, chains) && k < |chains|
    requires 2 <= c < |fat| && fat[c] == 0 && eoc >= |fat|
    ensures chains[k] != [] ==> 2 <= chains[k][|chains[k]| - 1] < |fat|
    ensures Consists(Appended(fat, chains[k], c, eoc), chains[k := chains[k] + [c]])
  {
    assert IsChainOrEmpty(fat, chains[k]);
    ChainGrows(fat, chains[k], c, eoc);
    ReplaceChain(fat, chains, k, Appended(fat, chains[k], c, eoc), chains[k] + [c]);
  }

  /** Cutting a chain, as an exchange. */
  lemma CutReplaces(fat: seq<int>, path: seq<int>, n: nat, eoc: int)
    requires IsChain(fat, path) && 0 < n < |path| && eoc >= |fat|
    ensures
      var cut := fat[path[n - 1] := eoc];
      Freed(cut, path[n]).0 == Ok && Replaces(fat, path, Freed(cut, path[n]).1, path[..n])
  {
    ChainCut(fat, path, n, eoc);
    assert path == path[..n] + path[n..];
    assert path[n - 1] in path;
  }

  /** The table after remove_chain has cut the chain of file `k` at position `n`. */
  lemma CutChain(fat: seq<int>, chains: seq<seq<int>>, k: nat, n: nat, eoc: int)
    requires Consists(fat, chains) && k < |chains| && 0 < n < |chains[k]| && eoc >= |fat|
    ensures
      var path := chains[k];
      && IsChain(fat, path)
      && var r := Freed(fat[path[n - 1] := eoc], path[n]);
      r.0 == Ok && Consists(r.1, chains[k := path[..n]])
  {
    var path := chains[k];
    assert IsChainOrEmpty(fat, path);
    CutReplaces(fat, path, n, eoc);
    ReplaceChain(fat, chains, k, Freed(fat[path[n - 1] := eoc], path[n]).1, path[..n]);
  }

  /** The table after remove_chain has freed all of the chain of file `k`. */
  lemma DropChain(fat: seq<int>, chains: seq<seq<int>>, k: nat)
    requires Consists(fat, chains) && k < |chains| && chains[k] != []
    ensures
      && IsChain(fat, chains[k])
      && var r := Freed(fat, chains[k][0]);
      r.0 == Ok && Consists(r.1, chains[k := []])
  {
    assert IsChainOrEmpty(fat, chains[k]);
    FreedChain(fat, chains[k]);
    ReplaceChain(fat, chains, k, Zeroed(fat, chains[k]), []);
  }
}
