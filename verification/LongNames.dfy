/** Long file names in directories: put_lfn, pick_lfn, sum_sfn, and the loops of dir_register and
    dir_read around them (FAT32 File System Specification 1.03, section "FAT Long Directory Entries").
    A directory is a run of 32-byte entries; that it is spread over sectors and clusters does not
    matter here. */
module LongNames {
  import opened Words
  import opened FatLayout
  import Arith

  type u16 = x: int | 0 <= x < 0x10000

  const SZDIRE: nat := 32        // size of a directory entry
  const MAX_LFN: nat := 255      // FF_MAX_LFN
  const LLEF: int := 0x40        // last entry flag
  const AM_LFN: byte := 0x0F
  const DDEM: byte := 0xE5       // deleted entry
  const NONE: byte := 0xFF       // ord: no sequence being read

  type DirEntry = s: seq<byte> | |s| == SZDIRE witness seq(SZDIRE, _ => 0)

  /** Offset of character `s` in a long name entry. */
  function LfnOfs(s: nat): (o: nat)
    requires s < 13
    ensures o == [1, 3, 5, 7, 9, 14, 16, 18, 20, 22, 24, 28, 30][s]
  {
    if s < 5 then 1 + 2 * s else if s < 11 then 4 + 2 * s else 6 + 2 * s
  }

  function Unit(e: DirEntry, s: nat): u16
    requires s < 13
  {
    Word16(e[LfnOfs(s)], e[LfnOfs(s) + 1])
  }

  /** The order byte without and with the flag for the last part of a name. */
  function OrdOf(e: DirEntry): byte { if e[0] / LLEF % 2 == 1 then e[0] - LLEF else e[0] }
  predicate IsLast(e: DirEntry) { e[0] / LLEF % 2 == 1 }
  function SumOf(e: DirEntry): byte { e[13] }
  function AttrOf(e: DirEntry): byte { e[11] % 0x40 }

  // ------------------------------------------------------------------------------------------
  // Writing

  ghost predicate NameOk(name: seq<u16>) {
    1 <= |name| <= MAX_LFN && forall k :: 0 <= k < |name| ==> name[k] != 0 && name[k] != 0xFFFF
  }

  /** The name, a terminator, and padding. */
  function CharAt(name: seq<u16>, p: nat): u16 {
    if p < |name| then name[p] else if p == |name| then 0 else 0xFFFF
  }

  /** Number of entries for a name. */
  function Parts(len: nat): nat { (len + 12) / 13 }

  /** The fixed fields and the first `n` characters of entry `ord`. */
  ghost predicate Filled(e: seq<byte>, name: seq<u16>, ord: nat, sum: byte, n: nat) {
    && |e| == SZDIRE && n <= 13 && 1 <= ord
    && e[11] == AM_LFN && e[12] == 0 && e[13] == sum && e[26] == 0 && e[27] == 0
    && forall s :: 0 <= s < n ==> Unit(e, s) == CharAt(name, (ord - 1) * 13 + s)
  }

  /** Entry `e` carries part `ord` of the name, for a short name with checksum `sum`. */
  ghost predicate Carries(e: seq<byte>, name: seq<u16>, ord: nat, sum: byte) {
    && Filled(e, name, ord, sum, 13) && ord <= 20
    && e[0] == if ord * 13 >= |name| then ord + LLEF else ord
  }

  lemma FillNext(e: DirEntry, name: seq<u16>, ord: nat, sum: byte, n: nat, val: u16)
    requires Filled(e, name, ord, sum, n) && n < 13 && val == CharAt(name, (ord - 1) * 13 + n)
    ensures Filled(e[LfnOfs(n) := val % 0x100][LfnOfs(n) + 1 := val / 0x100], name, ord, sum, n + 1)
  {
    var e': DirEntry := e[LfnOfs(n) := val % 0x100][LfnOfs(n) + 1 := val / 0x100];
    assert Unit(e', n) == val;
    forall s | 0 <= s < n
      ensures Unit(e', s) == Unit(e, s)
    {
    }
  }

  ghost predicate InBuffer(lfn: array<u16>, name: seq<u16>)
    reads lfn
  {
    |name| < lfn.Length && lfn[..|name|] == name && lfn[|name|] == 0
  }

  /** st_word at offset `k` of the entry at `o`. */
  method PutWord(dir: array<byte>, o: nat, k: nat, val: u16)
    requires o + SZDIRE <= dir.Length && k + 2 <= SZDIRE
    modifies dir
    ensures dir[o..o + SZDIRE] == old(dir[o..o + SZDIRE])[k := val % 0x100][k + 1 := val / 0x100]
    ensures dir[..o] == old(dir[..o]) && dir[o + SZDIRE..] == old(dir[o + SZDIRE..])
  {
    dir[o + k] := val % 0x100;
    dir[o + k + 1] := val / 0x100;
  }

  /** put_lfn: entry `ord` of the name in `lfn`, at offset `o` of the directory. */
  method PutLfn(lfn: array<u16>, dir: array<byte>, o: nat, ord: nat, sum: byte, ghost name: seq<u16>)
    requires NameOk(name) && InBuffer(lfn, name) && 1 <= ord && (ord - 1) * 13 < |name| && o + SZDIRE <= dir.Length
    modifies dir
    ensures Carries(dir[o..o + SZDIRE], name, ord, sum)
    ensures dir[..o] == old(dir[..o]) && dir[o + SZDIRE..] == old(dir[o + SZDIRE..])
  {
    hide Filled;
    dir[o + 13] := sum;
    dir[o + 11] := AM_LFN;
    dir[o + 12] := 0;
    PutWord(dir, o, 26, 0);
    FillStart(dir[o..o + SZDIRE], name, ord, sum);
    var i := (ord - 1) * 13;
    var s, wc: u16 := 0, 0;
    while true
      invariant 0 <= s < 13
      invariant if (ord - 1) * 13 + s <= |name| then i == (ord - 1) * 13 + s && wc != 0xFFFF else wc == 0xFFFF
      invariant Filled(dir[o..o + SZDIRE], name, ord, sum, s)
      invariant dir[..o] == old(dir[..o]) && dir[o + SZDIRE..] == old(dir[o + SZDIRE..])
      decreases 13 - s
    {
      if wc != 0xFFFF {
        NextChar(lfn, name, i);
        wc := lfn[i];
        i := i + 1;
      }
      FillNext(dir[o..o + SZDIRE], name, ord, sum, s, wc);
      PutWord(dir, o, LfnOfs(s), wc);
      if wc == 0 { wc := 0xFFFF; }
      s := s + 1;
      if s >= 13 { break; }
    }
    var b: byte := ord;
    if wc != 0xFFFF { NextChar(lfn, name, i); }
    if wc == 0xFFFF || lfn[i] == 0 {
      b := b + LLEF;
    }
    ghost var e: DirEntry := dir[o..o + SZDIRE];
    SetOrd(e, name, ord, sum, b);
    dir[o] := b;
    assert dir[o..o + SZDIRE] == e[0 := b];
  }

  lemma NextChar(lfn: array<u16>, name: seq<u16>, i: nat)
    requires NameOk(name) && InBuffer(lfn, name) && i <= |name|
    ensures lfn[i] == CharAt(name, i) && (lfn[i] == 0 <==> i == |name|) && lfn[i] != 0xFFFF
  {
    assert i < |name| ==> lfn[i] == lfn[..|name|][i];
  }

  lemma FillStart(e: DirEntry, name: seq<u16>, ord: nat, sum: byte)
    requires 1 <= ord && e[11] == AM_LFN && e[12] == 0 && e[13] == sum && e[26] == 0 && e[27] == 0
    ensures Filled(e, name, ord, sum, 0)
  {
  }

  lemma SetOrd(e: DirEntry, name: seq<u16>, ord: nat, sum: byte, b: byte)
    requires Filled(e, name, ord, sum, 13) && ord <= 20 && b == if ord * 13 >= |name| then ord + LLEF else ord
    ensures Carries(e[0 := b], name, ord, sum)
  {
    var e': DirEntry := e[0 := b];
    forall s | 0 <= s < 13
      ensures Unit(e', s) == Unit(e, s)
    {
    }
  }

  /** The names that fit the buffer, and an entry that carries a part of one, in numbers: the two bytes of each
      character stand at the offsets listed. */
  lemma CarriesInBytes(e: DirEntry, name: seq<u16>, ord: nat, sum: byte)
    ensures NameOk(name) <==> 1 <= |name| <= 255 && 0 !in name && 0xFFFF !in name
    ensures Carries(e, name, ord, sum) <==>
              && 1 <= ord <= 20 && e[0] == (if 13 * ord >= |name| then 0x40 + ord else ord)
              && e[11] == 0x0F && e[12] == 0 && e[13] == sum && e[26] == 0 && e[27] == 0
              && forall s :: 0 <= s < 13 ==>
                   var o, p := [1, 3, 5, 7, 9, 14, 16, 18, 20, 22, 24, 28, 30][s], 13 * (ord - 1) + s;
                   var c: int := if p < |name| then name[p] else if p == |name| then 0 else 0xFFFF;
                   e[o] == c % 0x100 && e[o + 1] == c / 0x100
  {
    hide Unit, LfnOfs;
    if 1 <= ord {
      forall s | 0 <= s < 13
        ensures Unit(e, s) == CharAt(name, 13 * (ord - 1) + s) <==>
                  var o, p := [1, 3, 5, 7, 9, 14, 16, 18, 20, 22, 24, 28, 30][s], 13 * (ord - 1) + s;
                  var c: int := if p < |name| then name[p] else if p == |name| then 0 else 0xFFFF;
                  e[o] == c % 0x100 && e[o + 1] == c / 0x100
      {
        UnitInBytes(e, s, CharAt(name, 13 * (ord - 1) + s));
      }
    }
  }

  lemma UnitInBytes(e: DirEntry, s: nat, c: u16)
    requires s < 13
    ensures
      var o := [1, 3, 5, 7, 9, 14, 16, 18, 20, 22, 24, 28, 30][s];
      Unit(e, s) == c <==> e[o] == c % 0x100 && e[o + 1] == c / 0x100
  {
  }

  /** Which entries dir_read takes for what, in numbers: deleted entries, dot entries and volume labels are passed
      over; parts of a long name; order number, last part flag and checksum of one. */
  lemma KindsInBytes(e: DirEntry)
    ensures Skipped(e) <==> e[0] in {0xE5, 0x2E} || e[11] % 0x40 in {0x08, 0x28}
    ensures AttrOf(e) == AM_LFN <==> e[11] % 0x40 == 0x0F
    ensures (IsLast(e) <==> e[0] / 0x40 % 2 == 1) && OrdOf(e) == e[0] % 0x40 + e[0] / 0x80 * 0x80 && SumOf(e) == e[13]
  {
  }

  /** Entry `j` of the directory with bytes `d`. */
  function EntryAt(d: seq<byte>, j: nat): DirEntry
    requires j * SZDIRE + SZDIRE <= |d|
  {
    d[j * SZDIRE..j * SZDIRE + SZDIRE]
  }

  /** The checksum of a short name. */
  function Checksum(name: seq<byte>): byte {
    if name == [] then 0
    else
      var sum := Checksum(name[..|name| - 1]);
      (sum / 2 + sum * 0x80 + name[|name| - 1]) % 0x100
  }

  /** The sums on the way (`t`), and what each becomes by a rotation of one bit to the right (`r`): bit 0 moves to
      bit 7, the other bits move down by one. Then a byte of the name is added. */
  lemma {:induction false} SumsRotate(name: seq<byte>) returns (t: seq<int>, r: seq<int>)
    ensures |t| == |name| + 1 && |r| == |name| && t[0] == 0 && t[|name|] == Checksum(name)
    ensures forall n :: 0 <= n < |name| ==>
              r[n] / 0x80 == t[n] % 2 && r[n] % 0x80 == t[n] / 2 && t[n + 1] == (r[n] + name[n]) % 0x100
  {
    if name == [] {
      t, r := [0], [];
    } else {
      var rest := name[..|name| - 1];
      t, r := SumsRotate(rest);
      var x := RotatedSum(t[|rest|], name[|rest|]);
      t, r := t + [Checksum(name)], r + [x];
    }
  }

  lemma RotatedSum(sum: byte, b: byte) returns (r: byte)
    ensures r / 0x80 == sum % 2 && r % 0x80 == sum / 2 && (sum / 2 + sum * 0x80 + b) % 0x100 == (r + b) % 0x100
  {
    r := sum % 2 * 0x80 + sum / 2;
    assert sum * 0x80 == sum % 2 * 0x80 + 0x100 * (sum / 2);
  }

  /** The checksum of "BOOT    FIR". */
  lemma KnownChecksum()
    ensures Checksum([0x42, 0x4F, 0x4F, 0x54, 0x20, 0x20, 0x20, 0x20, 0x46, 0x49, 0x52]) == 0x2D
  {
    hide Checksum;
    var name: seq<byte> := [0x42, 0x4F, 0x4F, 0x54, 0x20, 0x20, 0x20, 0x20, 0x46, 0x49, 0x52];
    NextSum(name, 0, 0x42, 0);
    NextSum(name, 1, 0x4F, 0x42);
    NextSum(name, 2, 0x4F, 0x70);
    NextSum(name, 3, 0x54, 0x87);
    NextSum(name, 4, 0x20, 0x17);
    NextSum(name, 5, 0x20, 0xAB);
    NextSum(name, 6, 0x20, 0xF5);
    NextSum(name, 7, 0x20, 0x1A);
    NextSum(name, 8, 0x46, 0x2D);
    NextSum(name, 9, 0x49, 0xDC);
    NextSum(name, 10, 0x52, 0xB7);
    assert name[..11] == name;
  }

  lemma NextSum(name: seq<byte>, k: nat, b: byte, sum: byte)
    requires k < |name| && name[k] == b && (if k == 0 then sum == 0 else Checksum(name[..k]) == sum)
    ensures Checksum(name[..k + 1]) == (sum / 2 + sum % 2 * 0x80 + b) % 0x100
  {
    assert name[..k + 1][..k] == name[..k];
    var r := RotatedSum(sum, b);
  }

  /** sum_sfn */
  method SumSfn(e: DirEntry) returns (sum: byte)
    ensures sum == Checksum(e[..11])
    ensures exists t: seq<int>, r: seq<int> ::
              && |t| == 12 && |r| == 11 && t[0] == 0 && t[11] == sum
              && forall n :: 0 <= n < 11 ==>
                   r[n] / 0x80 == t[n] % 2 && r[n] % 0x80 == t[n] / 2 && t[n + 1] == (r[n] + e[n]) % 0x100
  {
    sum := 0;
    var n := 11;
    while n > 0
      invariant 0 <= n <= 11
      invariant sum == Checksum(e[..11 - n])
    {
      assert e[..12 - n][..11 - n] == e[..11 - n];
      sum := (sum / 2 + sum * 0x80 + e[11 - n]) % 0x100;
      n := n - 1;
    }
    ghost var t, r := SumsRotate(e[..11]);
  }

  /** The entries of a long name, last part first, and the short name entry after them. */
  ghost predicate Registered(es: seq<DirEntry>, a: nat, name: seq<u16>, sfn: DirEntry) {
    && a + Parts(|name|) < |es|
    && es[a + Parts(|name|)] == sfn
    && forall j :: a <= j < a + Parts(|name|) ==> Carries(es[j], name, Parts(|name|) - (j - a), Checksum(sfn[..11]))
  }

  ghost function Entries(d: seq<byte>): (es: seq<DirEntry>)
    ensures |es| == |d| / 32
    ensures forall j :: 0 <= j < |es| ==> es[j] == EntryAt(d, j) == d[j * 32..j * 32 + 32]
  {
    seq(|d| / SZDIRE, j requires 0 <= j < |d| / SZDIRE => EntryAt(d, j))
  }

  lemma OneEntry(d: seq<byte>, d': seq<byte>, j: nat, e: DirEntry)
    requires |d'| == |d| && j * SZDIRE + SZDIRE <= |d| && d'[j * SZDIRE..j * SZDIRE + SZDIRE] == e
    requires d'[..j * SZDIRE] == d[..j * SZDIRE] && d'[j * SZDIRE + SZDIRE..] == d[j * SZDIRE + SZDIRE..]
    ensures j < |Entries(d)| && Entries(d') == Entries(d)[j := e]
  {
    forall k | 0 <= k < |Entries(d)| && k != j
      ensures EntryAt(d', k) == EntryAt(d, k)
    {
      if k < j {
        assert EntryAt(d', k) == d'[..j * SZDIRE][k * SZDIRE..k * SZDIRE + SZDIRE];
        assert EntryAt(d, k) == d[..j * SZDIRE][k * SZDIRE..k * SZDIRE + SZDIRE];
      } else {
        var b := j * SZDIRE + SZDIRE;
        assert EntryAt(d', k) == d'[b..][k * SZDIRE - b..k * SZDIRE + SZDIRE - b];
        assert EntryAt(d, k) == d[b..][k * SZDIRE - b..k * SZDIRE + SZDIRE - b];
      }
    }
  }

  method NameLength(lfn: array<u16>, ghost name: seq<u16>) returns (len: nat)
    requires NameOk(name) && InBuffer(lfn, name)
    ensures len == |name|
  {
    len := 0;
    NextChar(lfn, name, len);
    while lfn[len] != 0
      invariant 0 <= len <= |name| && (lfn[len] == 0 <==> len == |name|)
      decreases |name| - len
    {
      len := len + 1;
      NextChar(lfn, name, len);
    }
  }

  /** The first `j - a` entries of a long name with `n` parts are in their places, and nothing else has
      changed. */
  ghost predicate Written(es0: seq<DirEntry>, es: seq<DirEntry>, a: nat, j: nat, n: nat, name: seq<u16>, sum: byte) {
    && |es| == |es0| && a <= j <= |es| && j - a <= n
    && (forall k :: a <= k < j ==> Carries(es[k], name, n - (k - a), sum))
    && (forall k :: 0 <= k < |es| && !(a <= k < j) ==> es[k] == es0[k])
  }

  lemma WrittenNext(es0: seq<DirEntry>, es: seq<DirEntry>, a: nat, j: nat, n: nat, name: seq<u16>, sum: byte,
                    e: DirEntry)
    requires Written(es0, es, a, j, n, name, sum) && j < |es| && n > j - a && Carries(e, name, n - (j - a), sum)
    ensures Written(es0, es[j := e], a, j + 1, n, name, sum)
  {
    hide Carries;
  }

  /** The end of dir_register: the long name entries in front of the short name entry `sfn`, in
      the entries from index `a` on. */
  method RegisterNames(lfn: array<u16>, dir: array<byte>, a: nat, sfn: DirEntry, ghost name: seq<u16>)
    requires NameOk(name) && InBuffer(lfn, name) && (a + Parts(|name|)) * SZDIRE + SZDIRE <= dir.Length
    modifies dir
    ensures Registered(Entries(dir[..]), a, name, sfn)
    ensures |Entries(dir[..])| == |Entries(old(dir[..]))|
    ensures forall j :: 0 <= j < |Entries(dir[..])| && !(a <= j <= a + Parts(|name|)) ==>
              Entries(dir[..])[j] == Entries(old(dir[..]))[j]
  {
    hide Entries, Carries, Checksum, EntryAt, Written, InBuffer, CharAt;
    var len := NameLength(lfn, name);
    var nEnt := Parts(len);
    var sum := SumSfn(sfn);
    var j := a;
    ghost var n, es0 := Parts(|name|), Entries(dir[..]);
    NothingWritten(es0, a, n, name, sum, dir[..]);
    while true
      invariant 1 <= nEnt && j + nEnt == a + n && a <= j
      invariant Written(es0, Entries(dir[..]), a, j, n, name, sum)
      decreases nEnt
    {
      ghost var was := dir[..];
      PutLfn(lfn, dir, j * SZDIRE, nEnt, sum, name);
      OneEntry(was, dir[..], j, dir[j * SZDIRE..j * SZDIRE + SZDIRE]);
      WrittenNext(es0, Entries(was), a, j, n, name, sum, dir[j * SZDIRE..j * SZDIRE + SZDIRE]);
      nEnt := nEnt - 1;
      j := j + 1;
      if nEnt == 0 { break; }
    }
    ghost var was := dir[..];
    PutEntry(dir, j * SZDIRE, sfn);
    OneEntry(was, dir[..], j, sfn);
    AllWritten(es0, Entries(was), a, name, sfn);
  }

  lemma NothingWritten(es0: seq<DirEntry>, a: nat, n: nat, name: seq<u16>, sum: byte, d: seq<byte>)
    requires es0 == Entries(d) && a * SZDIRE <= |d|
    ensures Written(es0, es0, a, a, n, name, sum)
  {
  }

  lemma AllWritten(es0: seq<DirEntry>, es: seq<DirEntry>, a: nat, name: seq<u16>, sfn: DirEntry)
    requires Written(es0, es, a, a + Parts(|name|), Parts(|name|), name, Checksum(sfn[..11]))
              && a + Parts(|name|) < |es|
    ensures Registered(es[a + Parts(|name|) := sfn], a, name, sfn)
    ensures |es| == |es0|
    ensures forall j :: 0 <= j < |es| && !(a <= j <= a + Parts(|name|)) ==> es[j] == es0[j]
  {
    hide Carries, Checksum;
  }

  method PutEntry(dir: array<byte>, o: nat, e: DirEntry)
    requires o + SZDIRE <= dir.Length
    modifies dir
    ensures dir[o..o + SZDIRE] == e
    ensures dir[..o] == old(dir[..o]) && dir[o + SZDIRE..] == old(dir[o + SZDIRE..])
  {
    hide Splice;
    CopyInto(dir, o, e);
    SpliceParts(old(dir[..]), o, o, e);
  }

  // ------------------------------------------------------------------------------------------
  // Reading

  /** How many characters of the entry belong to the name, a terminator included. */
  ghost function Used(e: DirEntry, s: nat): (n: nat)
    requires s < 13
    ensures s < n <= 13
    ensures forall k :: s <= k < n - 1 ==> Unit(e, k) != 0
    ensures n < 13 ==> Unit(e, n - 1) == 0
    decreases 13 - s
  {
    if Unit(e, s) == 0 || s == 12 then s + 1 else Used(e, s + 1)
  }

  /** pick_lfn accepts the entry: its part of the name fits the buffer, with its terminator if it is
      the last part, and what follows a terminator is padding. */
  ghost predicate PickOk(e: DirEntry) {
    && e[26] == 0 && e[27] == 0
    && 1 <= OrdOf(e) && (OrdOf(e) - 1) * 13 + Used(e, 0) <= MAX_LFN + 1
    && (forall s :: Used(e, 0) <= s < 13 ==> Unit(e, s) == 0xFFFF)
    && (IsLast(e) && Unit(e, Used(e, 0) - 1) != 0 ==> OrdOf(e) * 13 <= MAX_LFN)
  }

  /** The buffer holds the entry's part of the name. */
  ghost predicate Picked(buf: seq<u16>, e: DirEntry) {
    && |buf| == MAX_LFN + 1 && PickOk(e)
    && (forall p :: (OrdOf(e) - 1) * 13 <= p < (OrdOf(e) - 1) * 13 + Used(e, 0) ==>
       buf[p] == Unit(e, p - (OrdOf(e) - 1) * 13))
    && (IsLast(e) && Unit(e, Used(e, 0) - 1) != 0 ==> buf[OrdOf(e) * 13] == 0)
  }

  lemma PickedAll(buf: seq<u16>, e: DirEntry, base: nat, used: nat)
    requires |buf| == MAX_LFN + 1 && PickOk(e) && used == Used(e, 0) && base == (OrdOf(e) - 1) * 13
    requires forall p :: base <= p < base + used ==> buf[p] == Unit(e, p - base)
    requires IsLast(e) && Unit(e, used - 1) != 0 ==> buf[OrdOf(e) * 13] == 0
    ensures Picked(buf, e)
  {
    hide Unit, OrdOf, IsLast, Used, PickOk;
  }

  /** The first `s` of the `used` characters of the entry are in the buffer, and from `base` + 13 on it is as it was. */
  ghost predicate Taken(buf: seq<u16>, was: seq<u16>, e: DirEntry, base: nat, used: nat, s: nat) {
    && |buf| == |was| && used <= 13 && (s > 0 ==> base + (if s < used then s else used) <= |buf|)
    && (forall p :: base <= p < base + s && p < base + used ==> buf[p] == Unit(e, p - base))
    && forall k :: base + 13 <= k < |buf| ==> buf[k] == was[k]
  }

  lemma TakenNone(buf: seq<u16>, e: DirEntry, base: nat, used: nat)
    requires used <= 13
    ensures Taken(buf, buf, e, base, used, 0)
  {
  }

  lemma TakenMore(buf: seq<u16>, was: seq<u16>, e: DirEntry, base: nat, used: nat, s: nat)
    requires Taken(buf, was, e, base, used, s) && s < used && base + s < |buf|
    ensures Taken(buf[base + s := Unit(e, s)], was, e, base, used, s + 1)
  {
  }

  lemma TakenPast(buf: seq<u16>, was: seq<u16>, e: DirEntry, base: nat, used: nat, s: nat)
    requires Taken(buf, was, e, base, used, s) && s >= used > 0
    ensures Taken(buf, was, e, base, used, s + 1)
  {
  }

  lemma TakenAll(buf: seq<u16>, was: seq<u16>, e: DirEntry, base: nat, used: nat)
    requires Taken(buf, was, e, base, used, 13)
    ensures |buf| == |was| && base + used <= |buf|
    ensures forall p :: base <= p < base + used ==> buf[p] == Unit(e, p - base)
    ensures forall k :: base + 13 <= k < |buf| ==> buf[k] == was[k]
  {
  }

  /** What makes the code give up. */
  lemma NotPicked(e: DirEntry)
    requires Word16(e[26], e[27]) != 0 || OrdOf(e) == 0
    ensures !PickOk(e)
  {
    hide Unit, OrdOf, IsLast, Used;
  }

  lemma NoPlace(e: DirEntry)
    requires (OrdOf(e) - 1) * 13 + Used(e, 0) > MAX_LFN + 1
    ensures !PickOk(e)
  {
    hide Unit, OrdOf, IsLast, Used;
  }

  lemma NoPlaceForEnd(e: DirEntry)
    requires IsLast(e) && Unit(e, Used(e, 0) - 1) != 0 && OrdOf(e) * 13 > MAX_LFN
    ensures !PickOk(e)
  {
    hide Unit, OrdOf, IsLast, Used;
  }

  lemma NotPadded(e: DirEntry, s: nat)
    requires Used(e, 0) <= s < 13 && Unit(e, s) != 0xFFFF
    ensures !PickOk(e)
  {
    hide Unit, OrdOf, IsLast, Used;
  }

  lemma PickedSo(e: DirEntry)
    requires Word16(e[26], e[27]) == 0 && 1 <= OrdOf(e) && (OrdOf(e) - 1) * 13 + Used(e, 0) <= MAX_LFN + 1
    requires forall s :: Used(e, 0) <= s < 13 ==> Unit(e, s) == 0xFFFF
    requires IsLast(e) && Unit(e, Used(e, 0) - 1) != 0 ==> OrdOf(e) * 13 <= MAX_LFN
    ensures PickOk(e)
  {
    hide Unit, OrdOf, IsLast, Used;
  }

  /** pick_lfn */
  method PickLfn(lfn: array<u16>, e: DirEntry) returns (ok: bool)
    requires lfn.Length == MAX_LFN + 1
    modifies lfn
    ensures ok <==> PickOk(e)
    ensures ok ==> Picked(lfn[..], e)
    // what it leaves alone: the later parts, unless this is the last one
    ensures ok && !IsLast(e) ==> forall k :: OrdOf(e) * 13 <= k < lfn.Length ==> lfn[k] == old(lfn[k])
  {
    hide Unit, OrdOf, IsLast, Used, Taken, Picked, PickOk, Word16;
    if Word16(e[26], e[27]) != 0 {
      NotPicked(e);
      return false;
    }
    if OrdOf(e) == 0 {
      NotPicked(e);
      return false;  // the unsigned offset of the first character is out of bounds
    }
    var base := (OrdOf(e) - 1) * 13;
    var i, s, wc := base, 0, 1;
    ghost var used, was := Used(e, 0), lfn[..];
    TakenNone(was, e, base, used);
    while s < 13
      invariant 0 <= s <= 13 && base <= i
      invariant if s < used || (s == 13 && wc != 0) then i == base + s && wc != 0
                else i == base + used && (wc == 0 <==> Unit(e, used - 1) == 0)
      invariant s >= used && wc != 0 ==> s == 13 == used
      invariant s > 0 ==> base + (if s < used then s else used) <= MAX_LFN + 1
      invariant Taken(lfn[..], was, e, base, used, s)
      invariant forall k :: used <= k < s ==> Unit(e, k) == 0xFFFF
    {
      var uc := Unit(e, s);
      if wc != 0 {
        if i >= MAX_LFN + 1 {
          NoPlace(e);
          return false;
        }
        TakenMore(lfn[..], was, e, base, used, s);
        wc := uc;
        lfn[i] := wc;
        i := i + 1;
      } else {
        if uc != 0xFFFF {
          NotPadded(e, s);
          return false;
        }
        TakenPast(lfn[..], was, e, base, used, s);
      }
      s := s + 1;
    }
    TakenAll(lfn[..], was, e, base, used);
    ghost var filled := lfn[..];
    assert Unit(e, used - 1) != 0 ==> wc != 0 && i == OrdOf(e) * 13;
    if IsLast(e) && wc != 0 {
      if i >= MAX_LFN + 1 {
        NoPlaceForEnd(e);
        return false;
      }
      lfn[i] := 0;
    }
    assert base + used <= i;
    assert forall p :: base <= p < base + used ==> lfn[..][p] == filled[p];
    ok := true;
    PickedSo(e);
    PickedAll(lfn[..], e, base, used);
  }

  /** What dir_read keeps while it walks over the parts of a long name: the order number it expects
      next is `ord` + ... counting down to 0, the checksum, and the index of the first part. */
  datatype State = State(ord: byte, sum: byte, blk: nat)

  const START: State := State(NONE, NONE, 0)

  ghost function OnLfn(st: State, e: DirEntry, j: nat): State {
    var st1 := if IsLast(e) then State(OrdOf(e), SumOf(e), j) else st;
    if OrdOf(e) == st1.ord && SumOf(e) == st1.sum && PickOk(e) then st1.(ord := st1.ord - 1) else st1.(ord := NONE)
  }

  /** Deleted entries, dot entries and volume labels. */
  predicate Skipped(e: DirEntry) {
    e[0] == DDEM || e[0] == 0x2E || AttrOf(e) == 0x08 || AttrOf(e) == 0x28
  }

  datatype Outcome = NoFile | Found(index: nat, hasLfn: bool, blk: nat)

  /** The next object from entry `j` on. */
  ghost function Scan(es: seq<DirEntry>, j: nat, st: State): Outcome
    decreases |es| - j
  {
    if j >= |es| || es[j][0] == 0 then NoFile
    else if Skipped(es[j]) then Scan(es, j + 1, st.(ord := NONE))
    else if AttrOf(es[j]) == AM_LFN then Scan(es, j + 1, OnLfn(st, es[j], j))
    else Found(j, st.ord == 0 && st.sum == Checksum(es[j][..11]), st.blk)
  }

  /** The entries from `a` up to `j` are accepted parts of one long name, each of them in the buffer. */
  ghost predicate Assembled(buf: seq<u16>, es: seq<DirEntry>, a: nat, j: nat) {
    a < j <= |es| && forall k :: a <= k < j ==> Picked(buf, es[k])
  }

  /** What the order numbers say about the entries walked over. */
  ghost predicate RunOf(es: seq<DirEntry>, j: nat, st: State) {
    && j <= |es|
    && (st.ord != NONE ==>
          && st.blk < j
          && IsLast(es[st.blk])
          && forall k :: st.blk <= k < j ==>
               && AttrOf(es[k]) == AM_LFN && !Skipped(es[k]) && PickOk(es[k])
               && OrdOf(es[k]) == st.ord + (j - k) && SumOf(es[k]) == st.sum && (k > st.blk ==> !IsLast(es[k])))
  }

  lemma RunNext(es: seq<DirEntry>, j: nat, st: State)
    requires RunOf(es, j, st) && j < |es| && AttrOf(es[j]) == AM_LFN && !Skipped(es[j])
    ensures RunOf(es, j + 1, OnLfn(st, es[j], j))
  {
    hide PickOk, OrdOf, IsLast, SumOf, AttrOf, Skipped;
    NoneIsNoOrder(es[j]);
  }

  lemma NoneIsNoOrder(e: DirEntry)
    ensures OrdOf(e) != NONE && (PickOk(e) ==> 1 <= OrdOf(e))
  {
  }

  lemma StartRun(es: seq<DirEntry>)
    ensures RunOf(es, 0, START)
  {
  }

  lemma RunBroken(es: seq<DirEntry>, j: nat, st: State)
    requires j < |es|
    ensures RunOf(es, j + 1, st.(ord := NONE))
  {
  }

  lemma OrdByte(e: DirEntry)
    ensures IsLast(e) <==> e[0] / LLEF % 2 == 1
    ensures OrdOf(e) == (if e[0] / LLEF % 2 == 1 then e[0] - LLEF else e[0]) && SumOf(e) == e[13]
  {
  }

  /** Another part does not disturb the later parts already in the buffer. */
  lemma StillPicked(buf: seq<u16>, buf': seq<u16>, es: seq<DirEntry>, a: nat, j: nat, ord: nat)
    requires a <= j < |es| && |buf| == |buf'| == MAX_LFN + 1
    requires if IsLast(es[j]) then a == j else a < j && Assembled(buf, es, a, j)
    requires forall k :: a <= k <= j ==> OrdOf(es[k]) == ord + (j - k)
    requires Picked(buf', es[j])
    requires !IsLast(es[j]) ==> forall p :: ord * 13 <= p < |buf| ==> buf'[p] == buf[p]
    ensures Assembled(buf', es, a, j + 1)
  {
    hide Unit, OrdOf, IsLast, Used, PickOk;
    forall k | a <= k < j
      ensures Picked(buf', es[k])
    {
      assert Picked(buf, es[k]);
      PartBounds(es[k]);
    }
  }

  lemma PartBounds(e: DirEntry)
    requires PickOk(e)
    ensures 1 <= OrdOf(e) && (OrdOf(e) - 1) * 13 + Used(e, 0) <= MAX_LFN + 1
    ensures IsLast(e) && Unit(e, Used(e, 0) - 1) != 0 ==> OrdOf(e) * 13 <= MAX_LFN
  {
  }

  /** dir_read for a file or directory entry: the index of the short name entry, and whether a long
      name belongs to it, which then is in the buffer. */
  method DirRead(dir: array<byte>, lfn: array<u16>) returns (r: Outcome)
    requires lfn.Length == MAX_LFN + 1
    modifies lfn
    ensures r == Scan(Entries(dir[..]), 0, START)
    ensures r.Found? && r.hasLfn ==> Assembled(lfn[..], Entries(dir[..]), r.blk, r.index)
  {
    hide Entries, PickOk, Picked, OrdOf, IsLast, SumOf, AttrOf, Skipped, RunOf, Checksum, Assembled;
    var ord, sum, blk := NONE, NONE, 0;
    var j := 0;
    ghost var es := Entries(dir[..]);
    StartRun(es);
    while j < dir.Length / SZDIRE
      invariant 0 <= j <= dir.Length / SZDIRE && es == Entries(dir[..]) && 0 <= blk
      invariant Scan(es, 0, START) == Scan(es, j, State(ord, sum, blk))
      invariant RunOf(es, j, State(ord, sum, blk))
      invariant ord != NONE ==> Assembled(lfn[..], es, blk, j)
    {
      ghost var st := State(ord, sum, blk);
      var e := EntryAt(dir[..], j);
      assert e == es[j];
      if e[0] == 0 { return NoFile; }
      if Skipped(e) {
        RunBroken(es, j, st);
        ord := NONE;
      } else if AttrOf(e) == AM_LFN {
        RunNext(es, j, st);
        ord, sum, blk := OnEntry(lfn, es, j, e, ord, sum, blk);
      } else {
        var s := SumSfn(e);
        return Found(j, ord == 0 && sum == s, blk);
      }
      j := j + 1;
    }
    r := NoFile;
  }

  /** One long name entry. */
  method OnEntry(lfn: array<u16>, ghost es: seq<DirEntry>, j: nat, e: DirEntry, ord0: byte, sum0: byte, blk0: nat)
    returns (ord: byte, sum: byte, blk: nat)
    requires lfn.Length == MAX_LFN + 1 && j < |es| && es[j] == e && RunOf(es, j, State(ord0, sum0, blk0))
    requires ord0 != NONE ==> Assembled(lfn[..], es, blk0, j)
    modifies lfn
    ensures State(ord, sum, blk) == OnLfn(State(ord0, sum0, blk0), e, j)
    ensures ord != NONE ==> Assembled(lfn[..], es, blk, j + 1)
  {
    hide PickOk, Picked, OrdOf, IsLast, SumOf, AttrOf, Skipped;
    ord, sum, blk := ord0, sum0, blk0;
    var b := e[0];
    ghost var buf := lfn[..];
    OrdByte(e);
    if b / LLEF % 2 == 1 {
      sum := e[13];
      b := b - LLEF;
      ord := b;
      blk := j;
    }
    var ok := b == ord && sum == e[13];
    if ok {
      ok := PickLfn(lfn, e);
    }
    if ok {
      PartBounds(e);
      StillPicked(buf, lfn[..], es, blk, j, ord);
    }
    ord := if ok then ord - 1 else NONE;
  }

  // ------------------------------------------------------------------------------------------
  // Soundness: a long name is never put together from parts that do not belong together

  /** Entries `a` to `j` are, in this order, the parts `j - a` to 1 of one name for the short name entry
      `es[j]`, and the first of them is marked as the last part of the name. */
  ghost predicate Sequence(es: seq<DirEntry>, a: nat, j: nat) {
    && a < j < |es| && IsLast(es[a])
    && forall k :: a <= k < j ==>
         && AttrOf(es[k]) == AM_LFN && PickOk(es[k])
         && OrdOf(es[k]) == j - k && SumOf(es[k]) == Checksum(es[j][..11]) && (k > a ==> !IsLast(es[k]))
  }

  lemma {:induction false} ScanSound(es: seq<DirEntry>, j: nat, st: State)
    requires RunOf(es, j, st)
    ensures var r := Scan(es, j, st);
            r.Found? ==> r.index < |es| && (r.hasLfn ==> Sequence(es, r.blk, r.index))
    decreases |es| - j
  {
    hide PickOk, OrdOf, IsLast, SumOf, AttrOf, Skipped, Checksum;
    if j < |es| && es[j][0] != 0 {
      if Skipped(es[j]) {
        ScanSound(es, j + 1, st.(ord := NONE));
      } else if AttrOf(es[j]) == AM_LFN {
        RunNext(es, j, st);
        ScanSound(es, j + 1, OnLfn(st, es[j], j));
      }
    }
  }

  // ------------------------------------------------------------------------------------------
  // The round trip

  /** An entry that dir_read takes for a short name. */
  predicate Plain(e: DirEntry) {
    e[0] != 0 && !Skipped(e) && AttrOf(e) != AM_LFN
  }

  lemma FirstZero(e: DirEntry, t: nat)
    requires t <= 13 && (forall s :: 0 <= s < t ==> Unit(e, s) != 0) && (t < 13 ==> Unit(e, t) == 0)
    ensures Used(e, 0) == if t < 13 then t + 1 else 13
  {
    hide Unit, Used;
    var n := Used(e, 0);
    assert !(t < n - 1) && (n - 1 < t ==> n == 13);
  }

  lemma UsedOf(e: DirEntry, name: seq<u16>, ord: nat, sum: byte)
    requires NameOk(name) && Carries(e, name, ord, sum) && (ord - 1) * 13 < |name|
    ensures Used(e, 0) == if ord * 13 > |name| then |name| + 1 - (ord - 1) * 13 else 13
    ensures forall s :: Used(e, 0) <= s < 13 ==> Unit(e, s) == 0xFFFF
    ensures ord * 13 <= |name| ==> Unit(e, 12) != 0
    ensures ord * 13 > |name| ==> Unit(e, Used(e, 0) - 1) == 0
  {
    hide Unit, Used;
    var base := (ord - 1) * 13;
    var t := if ord * 13 > |name| then |name| - base else 13;
    forall s | 0 <= s < t
      ensures Unit(e, s) != 0
    {
      assert Unit(e, s) == CharAt(name, base + s);
    }
    FirstZero(e, t);
  }

  /** What put_lfn writes is an entry that dir_read accepts. */
  lemma CarriesOk(e: DirEntry, name: seq<u16>, ord: nat, sum: byte)
    requires NameOk(name) && Carries(e, name, ord, sum) && (ord - 1) * 13 < |name|
    ensures e[0] != 0 && !Skipped(e) && AttrOf(e) == AM_LFN && SumOf(e) == sum
    ensures OrdOf(e) == ord && (IsLast(e) <==> ord * 13 >= |name|)
    ensures PickOk(e)
  {
    hide Unit, Used, CharAt;
    UsedOf(e, name, ord, sum);
  }

  /** From any state of the reader on, the parts of a registered name lead to its short name entry. */
  lemma {:induction false} ScanNames(es: seq<DirEntry>, a: nat, name: seq<u16>, sfn: DirEntry, i: nat, st: State)
    requires NameOk(name) && Registered(es, a, name, sfn) && Plain(sfn) && i <= Parts(|name|)
    requires i > 0 ==> st == State(Parts(|name|) - i, Checksum(sfn[..11]), a)
    ensures Scan(es, a + i, st) == Found(a + Parts(|name|), true, a)
    decreases Parts(|name|) - i
  {
    hide PickOk, OrdOf, IsLast, SumOf, AttrOf, Skipped, Carries, Checksum;
    var n := Parts(|name|);
    if i < n {
      var e := es[a + i];
      assert Carries(e, name, n - i, Checksum(sfn[..11]));
      CarriesOk(e, name, n - i, Checksum(sfn[..11]));
      ScanNames(es, a, name, sfn, i + 1, OnLfn(st, e, a + i));
    }
  }

  lemma {:induction false} ScanReaches(es: seq<DirEntry>, a: nat, j: nat, st: State) returns (st': State)
    requires j <= a <= |es| && forall k :: j <= k < a ==> es[k][0] != 0 && (Skipped(es[k]) || AttrOf(es[k]) == AM_LFN)
    ensures Scan(es, j, st) == Scan(es, a, st')
    decreases a - j
  {
    hide Skipped, AttrOf, OnLfn;
    if j == a {
      st' := st;
    } else {
      st' := ScanReaches(es, a, j + 1, if Skipped(es[j]) then st.(ord := NONE) else OnLfn(st, es[j], j));
    }
  }

  /** The parts of a name in the buffer make up the name. */
  lemma Rebuilt(buf: seq<u16>, es: seq<DirEntry>, a: nat, name: seq<u16>, sfn: DirEntry)
    requires NameOk(name) && Registered(es, a, name, sfn) && Assembled(buf, es, a, a + Parts(|name|))
    ensures |buf| == MAX_LFN + 1 && buf[..|name|] == name && buf[|name|] == 0
  {
    hide Carries, Checksum, PickOk, Picked;
    var n := Parts(|name|);
    assert Picked(buf, es[a]) && |buf| == MAX_LFN + 1 by { Sized(buf, es[a]); }
    forall p | 0 <= p <= |name|
      ensures buf[p] == CharAt(name, p)
    {
      var ord := if p == |name| && p % 13 == 0 then p / 13 else p / 13 + 1;
      var e := es[a + n - ord];
      assert Carries(e, name, ord, Checksum(sfn[..11]));
      PartChar(buf, e, name, ord, Checksum(sfn[..11]), p);
    }
    assert forall p :: 0 <= p < |name| ==> buf[p] == CharAt(name, p);
  }

  lemma Sized(buf: seq<u16>, e: DirEntry)
    requires Picked(buf, e)
    ensures |buf| == MAX_LFN + 1
  {
  }

  lemma PartChar(buf: seq<u16>, e: DirEntry, name: seq<u16>, ord: nat, sum: byte, p: nat)
    requires NameOk(name) && Carries(e, name, ord, sum) && (ord - 1) * 13 < |name| && Picked(buf, e)
    requires p <= |name| && (ord - 1) * 13 <= p && (p < ord * 13 || p == ord * 13 == |name|)
    ensures |buf| == MAX_LFN + 1 && buf[p] == CharAt(name, p)
  {
    hide Unit, Used;
    CarriesOk(e, name, ord, sum);
    UsedOf(e, name, ord, sum);
    var n, base := Used(e, 0), (ord - 1) * 13;
    if p < ord * 13 {
      assert Unit(e, p - base) == CharAt(name, p);
    } else {
      assert Unit(e, 12) == CharAt(name, base + 12);
    }
  }

  /** The law: whatever deleted entries and stray parts of other names come before it, a registered
      name is read back exactly. */
  lemma RoundTrip(es: seq<DirEntry>, a: nat, name: seq<u16>, sfn: DirEntry, buf: seq<u16>)
    requires NameOk(name) && Registered(es, a, name, sfn) && Plain(sfn)
    requires forall k :: 0 <= k < a ==> es[k][0] != 0 && (Skipped(es[k]) || AttrOf(es[k]) == AM_LFN)
    ensures Scan(es, 0, START) == Found(a + Parts(|name|), true, a)
    ensures Assembled(buf, es, a, a + Parts(|name|)) ==>
              |buf| == MAX_LFN + 1 && buf[..|name|] == name && buf[|name|] == 0
  {
    hide Registered, Assembled, Plain;
    assert a <= |es| by { Enough(es, a, name, sfn); }
    var st := ScanReaches(es, a, 0, START);
    ScanNames(es, a, name, sfn, 0, st);
    if Assembled(buf, es, a, a + Parts(|name|)) {
      Rebuilt(buf, es, a, name, sfn);
    }
  }

  lemma Enough(es: seq<DirEntry>, a: nat, name: seq<u16>, sfn: DirEntry)
    requires Registered(es, a, name, sfn)
    ensures a <= |es|
  {
  }

  /** The law on the code itself: dir_register and then dir_read, which may use the same buffer. */
  method RegisterThenRead(lfn: array<u16>, dir: array<byte>, a: nat, sfn: DirEntry, buf: array<u16>,
                          ghost name: seq<u16>) returns (r: Outcome)
    requires NameOk(name) && InBuffer(lfn, name) && (a + Parts(|name|)) * SZDIRE + SZDIRE <= dir.Length && Plain(sfn)
    requires forall k :: 0 <= k < a ==> var e := Entries(dir[..])[k]; e[0] != 0 && (Skipped(e) || AttrOf(e) == AM_LFN)
    requires buf.Length == MAX_LFN + 1
    modifies dir, buf
    ensures r == Found(a + Parts(|name|), true, a) && InBuffer(buf, name)
  {
    hide Entries, Registered, Plain, Skipped, AttrOf, Assembled;
    RegisterNames(lfn, dir, a, sfn, name);
    r := DirRead(dir, buf);
    RoundTrip(Entries(dir[..]), a, name, sfn, buf[..]);
    assert |name| < buf.Length && buf[..][..|name|] == buf[..|name|];
  }
}
