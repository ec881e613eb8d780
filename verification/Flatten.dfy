/** Runs of sectors as byte sequences. */
module Flatten {
  import opened Words

  /** The bytes of the `n` sectors from `base` on. */
  function Flat(v: seq<Sector>, base: nat, n: nat): (r: seq<byte>)
    requires base + n <= |v|
    ensures |r| == n * SS
  {
    if n == 0 then [] else Flat(v, base, n - 1) + v[base + n - 1]
  }

  lemma FlatOne(v: seq<Sector>, base: nat)
    requires base < |v|
    ensures Flat(v, base, 1) == v[base]
  {
    assert Flat(v, base, 0) == [];
  }

  lemma {:induction false} FlatAt(v: seq<Sector>, base: nat, n: nat, k: nat, o: nat)
    requires base + n <= |v| && k < n && o < SS
    ensures Flat(v, base, n)[k * SS + o] == v[base + k][o]
  {
    if k < n - 1 {
      FlatAt(v, base, n - 1, k, o);
      assert Flat(v, base, n)[k * SS + o] == Flat(v, base, n - 1)[k * SS + o];
    }
  }

  /** Equal sectors have equal bytes, wherever they lie. */
  lemma {:induction false} FlatSame(v: seq<Sector>, a: nat, w: seq<Sector>, b: nat, n: nat)
    requires a + n <= |v| && b + n <= |w|
    requires v[a..a + n] == w[b..b + n]
    ensures Flat(v, a, n) == Flat(w, b, n)
  {
    if n > 0 {
      assert v[a..a + n][..n - 1] == v[a..a + n - 1] && w[b..b + n][..n - 1] == w[b..b + n - 1];
      FlatSame(v, a, w, b, n - 1);
      assert v[a..a + n][n - 1] == w[b..b + n][n - 1];
    }
  }

  lemma {:induction false} FlatConcat(v: seq<Sector>, base: nat, m: nat, n: nat)
    requires base + m + n <= |v|
    ensures Flat(v, base, m + n) == Flat(v, base, m) + Flat(v, base + m, n)
  {
    if n > 0 {
      FlatConcat(v, base, m, n - 1);
      calc {
        Flat(v, base, m + n);
        Flat(v, base, m + (n - 1)) + v[base + m + n - 1];
        Flat(v, base, m) + Flat(v, base + m, n - 1) + v[base + m + n - 1];
        Flat(v, base, m) + Flat(v, base + m, n);
      }
    }
  }

  /** Replacing `m` of the sectors replaces their bytes. */
  lemma FlatReplace(v: seq<Sector>, v': seq<Sector>, base: nat, n: nat, a: nat, m: nat)
    requires base + n <= |v| && |v'| == |v| && a + m <= n
    requires forall s :: base <= s < base + n && !(base + a <= s < base + a + m) ==> v'[s] == v[s]
    ensures Flat(v', base, n) == Splice(Flat(v, base, n), a * SS, Flat(v', base + a, m))
  {
    hide Flat;
    var b := n - a - m;
    FlatConcat(v, base, a, m);
    FlatConcat(v, base, a + m, b);
    FlatConcat(v', base, a, m);
    FlatConcat(v', base, a + m, b);
    FlatSame(v, base, v', base, a);
    FlatSame(v, base + a + m, v', base + a + m, b);
    SpliceMiddle(Flat(v, base, a), Flat(v, base + a, m), Flat(v, base + a + m, b), Flat(v', base + a, m));
  }

  lemma SpliceMiddle(a: seq<byte>, b: seq<byte>, c: seq<byte>, b': seq<byte>)
    requires |b'| == |b|
    ensures Splice(a + b + c, |a|, b') == a + b' + c
  {
  }

  /** Storing bytes in one sector stores them in the whole. */
  lemma FlatAfterStore(v: seq<Sector>, base: nat, n: nat, k: nat, o: nat, bytes: seq<byte>)
    requires base + n <= |v| && k < n && o + |bytes| <= SS
    ensures Flat(v[base + k := Splice(v[base + k], o, bytes)], base, n) == Splice(Flat(v, base, n), k * SS + o, bytes)
  {
    hide Flat;
    var v' := v[base + k := Splice(v[base + k], o, bytes)];
    FlatReplace(v, v', base, n, k, 1);
    FlatOne(v', base + k);
    var f := Flat(v, base, n);
    FlatConcat(v, base, k, 1);
    FlatConcat(v, base, k + 1, n - k - 1);
    FlatOne(v, base + k);
    SpliceTwice(Flat(v, base, k), v[base + k], Flat(v, base + k + 1, n - k - 1), o, bytes);
  }

  lemma SpliceTwice(a: seq<byte>, b: seq<byte>, c: seq<byte>, o: nat, bytes: seq<byte>)
    requires o + |bytes| <= |b|
    ensures Splice(a + b + c, |a|, Splice(b, o, bytes)) == Splice(a + b + c, |a| + o, bytes)
  {
  }

  /** One sector's bytes. */
  lemma FlatSector(v: seq<Sector>, base: nat, n: nat, k: nat)
    requires base + n <= |v| && k < n
    ensures Flat(v, base, n)[k * SS..k * SS + SS] == v[base + k]
  {
    hide Flat;
    FlatConcat(v, base, k, 1);
    FlatConcat(v, base, k + 1, n - k - 1);
    FlatOne(v, base + k);
  }

  /** The first sectors' bytes come first. */
  lemma FlatPrefix(v: seq<Sector>, v': seq<Sector>, m: nat, n: nat)
    requires |v| == m && |v'| == m + n && v == v'[..m]
    ensures Flat(v, 0, m) <= Flat(v', 0, m + n)
  {
    hide Flat;
    FlatConcat(v', 0, m, n);
    FlatSame(v, 0, v', 0, m);
  }

  lemma FlatMiddle(v: seq<Sector>, n: nat, m: nat, r: nat)
    requires |v| == n + m + r
    ensures Flat(v, 0, n + m + r)[n * SS..n * SS + m * SS] == Flat(v, n, m)
  {
    hide Flat;
    FlatConcat(v, 0, n, m);
    FlatConcat(v, 0, n + m, r);
    MiddlePart(Flat(v, 0, n), Flat(v, n, m), Flat(v, n + m, r));
  }

  lemma MiddlePart(a: seq<byte>, b: seq<byte>, c: seq<byte>)
    ensures (a + b + c)[|a|..|a| + |b|] == b
  {
  }
}
