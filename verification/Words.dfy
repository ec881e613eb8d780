/** Machine words of the modelled code, as ranges of the mathematical integers.
    Every place where the code relies on wrap-around or truncation says so with an explicit `%`. */
module Words {

  const SS: nat := 512  // bytes in a sector

  const TWO32: int := 0x1_0000_0000

  type byte = x: int | 0 <= x < 256
  type u32 = x: int | 0 <= x < 0x1_0000_0000

  /** One disk sector. */
  type Sector = s: seq<byte> | |s| == SS witness seq(SS, _ => 0)

  datatype Option<+T> = None | Some(value: T)

  /** C subtraction on 32-bit unsigned operands. */
  function Sub32(a: int, b: int): (r: u32)
    ensures 0 <= a - b < TWO32 ==> r == a - b
    ensures -TWO32 <= a - b < 0 ==> r == a - b + TWO32
  {
    (a - b) % TWO32
  }

  /** `s` with the elements from `off` on replaced by `bytes`. */
  function Splice<T>(s: seq<T>, off: nat, bytes: seq<T>): (r: seq<T>)
    requires off + |bytes| <= |s|
    ensures |r| == |s|
  {
    s[..off] + bytes + s[off + |bytes|..]
  }

  /** The unsigned idiom `x - base < n` tests for membership in [base, base + n). */
  lemma OffsetTest(x: u32, base: u32, n: nat)
    requires base + n <= TWO32
    ensures Sub32(x, base) < n <==> base <= x < base + n
    ensures base <= x ==> Sub32(x, base) == x - base
  {
    if base <= x {
      assert Sub32(x, base) == x - base;
    } else {
      assert Sub32(x, base) == x - base + TWO32;
    }
  }

  /** What a splice at `at` leaves of a sequence, and what it puts there. */
  lemma SpliceParts<T>(s: seq<T>, off: nat, at: nat, bytes: seq<T>)
    requires off <= at && at + |bytes| <= |s|
    ensures
      var r := Splice(s, at, bytes);
      && r[..off] == s[..off]
      && r[off..at + |bytes|] == s[off..at] + bytes
      && r[at + |bytes|..] == s[at + |bytes|..]
  {
    var r := Splice(s, at, bytes);
    assert r[..off] == s[..off];
    assert r[off..at + |bytes|] == s[off..at] + bytes;
    assert r[at + |bytes|..] == s[at + |bytes|..];
  }

  /** What comes after a splice is as before. */
  lemma SpliceBehind<T>(s: seq<T>, off: nat, bytes: seq<T>, n: nat)
    requires off + |bytes| + n <= |s|
    ensures Splice(s, off, bytes)[off + |bytes|..off + |bytes| + n] == s[off + |bytes|..off + |bytes| + n]
  {
  }

  lemma SpliceEmpty<T>(s: seq<T>, off: nat, none: seq<T>)
    requires off <= |s| && |none| == 0
    ensures Splice(s, off, none) == s
  {
  }

  lemma SpliceNext<T>(s: seq<T>, off: nat, a: seq<T>, b: seq<T>)
    requires off + |a| + |b| <= |s|
    ensures Splice(Splice(s, off, a), off + |a|, b) == Splice(s, off, a + b)
  {
  }

  lemma SpliceMore<T>(s: seq<T>, off: nat, bytes: seq<T>, j: nat)
    requires off + |bytes| <= |s| && j < |bytes|
    ensures Splice(s, off, bytes[..j + 1]) == Splice(s, off, bytes[..j])[off + j := bytes[j]]
  {
  }

  /** memcpy of `bytes` into `dst` at `off`. */
  method CopyInto<T>(dst: array<T>, off: nat, bytes: seq<T>)
    requires off + |bytes| <= dst.Length
    modifies dst
    ensures dst[..] == Splice(old(dst[..]), off, bytes)
  {
    hide Splice;
    var j := 0;
    SpliceEmpty(dst[..], off, bytes[..0]);
    while j < |bytes|
      invariant 0 <= j <= |bytes|
      invariant dst[..] == Splice(old(dst[..]), off, bytes[..j])
    {
      SpliceMore(old(dst[..]), off, bytes, j);
      dst[off + j] := bytes[j];
      j := j + 1;
    }
    assert bytes[..j] == bytes;
  }
}
