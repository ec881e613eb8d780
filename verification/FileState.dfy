/** The state of an open file as plain values: what its bytes are, given the volume, the chain and
    the sector buffer, and how the steps of the file functions change them. */
module FileState {
  import opened Words
  import opened Flatten
  import opened FatLayout
  import opened Geometry
  import opened FileMap
  import Arith

  ghost predicate Mappable(g: Geometry, v: seq<Sector>, chain: seq<int>) {
    0 < g.csize && 0 < g.database && 2 <= g.nFatEnt && g.End() <= |v| && AllClusters(g, chain) && Distinct(chain)
  }

  /** Device sector `s` belongs to the file. */
  ghost predicate InFile(g: Geometry, chain: seq<int>, s: int) {
    g.csize > 0 && AllClusters(g, chain) && exists n :: 0 <= n < SectorCount(g, chain) && SectorNo(g, chain, n) == s
  }

  lemma SectorInFile(g: Geometry, chain: seq<int>, n: int, s: int)
    requires IsSector(g, chain, n, s)
    ensures InFile(g, chain, s)
  {
    assert SectorNo(g, chain, n) == s;
  }

  lemma InFileGrows(g: Geometry, chain: seq<int>, chain': seq<int>, s: int)
    requires InFile(g, chain, s) && chain <= chain' && AllClusters(g, chain')
    ensures InFile(g, chain', s)
  {
    var n :| 0 <= n < SectorCount(g, chain) && SectorNo(g, chain, n) == s;
    ClusterIndex(g, chain, n);
    Arith.MulMono(|chain|, |chain'|, g.csize);
    assert SectorNo(g, chain', n) == s;
  }

  /** At position `pos` the file object's cluster is the one that holds the byte before. */
  ghost predicate CursorAt(g: Geometry, chain: seq<int>, pos: int, clust: int)
    requires g.csize > 0
  {
    pos > 0 ==> 0 <= CursorIndex(g, pos) < |chain| && clust == chain[CursorIndex(g, pos)]
  }

  /** Inside a sector the buffer holds that sector. */
  ghost predicate BufferAt(g: Geometry, chain: seq<int>, pos: int, sect: int)
    requires g.csize > 0 && AllClusters(g, chain)
  {
    pos % SS != 0 ==> 0 <= pos / SS < SectorCount(g, chain) && sect == SectorNo(g, chain, pos / SS)
  }

  lemma BufferAnywhere(g: Geometry, chain: seq<int>, pos: int, sect: int)
    requires g.csize > 0 && AllClusters(g, chain) && pos % SS == 0
    ensures BufferAt(g, chain, pos, sect)
  {
  }

  /** A step that stays inside a sector leaves the cursor on the sector's cluster, and the sector in
      the buffer. */
  lemma InsidePlace(g: Geometry, chain: seq<int>, pos: nat, cnt: nat, clust: int, sect: int)
    requires IsSector(g, chain, pos / SS, sect) && 0 < cnt && pos % SS + cnt <= SS
    requires pos / SS / g.csize < |chain| && clust == chain[pos / SS / g.csize]
    ensures CursorAt(g, chain, pos + cnt, clust) && BufferAt(g, chain, pos + cnt, sect)
  {
    CursorInside(g, pos + cnt, pos / SS);
  }

  /** The volume with a dirty sector buffer in place of its sector. */
  function Overlay(v: seq<Sector>, dirty: bool, sect: int, buf: seq<byte>): (r: seq<Sector>)
    requires |buf| == SS
    ensures |r| == |v|
  {
    if dirty && 0 <= sect < |v| then v[sect := buf] else v
  }

  /** All bytes of the file's clusters. */
  ghost function AllBytes(g: Geometry, v: seq<Sector>, chain: seq<int>): (r: seq<byte>)
    requires Mappable(g, v, chain)
    ensures |r| == SectorCount(g, chain) * SS
  {
    Flat(FileSectors(g, v, chain), 0, SectorCount(g, chain))
  }

  /** The bytes of the file are `content`; the buffer holds one of its sectors, or a clean copy of
      some sector, or nothing. */
  ghost predicate Holds(g: Geometry, v: seq<Sector>, chain: seq<int>,
                        dirty: bool, sect: int, buf: seq<byte>, content: seq<byte>) {
    && Mappable(g, v, chain)
    && |buf| == SS
    && (dirty ==> InFile(g, chain, sect))
    && (sect != 0 ==> g.database <= sect)
    && (sect != 0 && !dirty ==> 0 <= sect < |v| && buf == v[sect])
    && |content| <= SectorCount(g, chain) * SS
    && content == AllBytes(g, Overlay(v, dirty, sect, buf), chain)[..|content|]
  }

  /** `content` with `bytes` written at `pos`; it grows if they reach past its end. */
  function Overwrite(content: seq<byte>, pos: nat, bytes: seq<byte>): (r: seq<byte>)
    requires pos <= |content|
    ensures |r| == if pos + |bytes| > |content| then pos + |bytes| else |content|
    ensures r[..pos] == content[..pos] && r[pos..pos + |bytes|] == bytes
    ensures pos + |bytes| < |content| ==> r[pos + |bytes|..] == content[pos + |bytes|..]
  {
    content[..pos] + bytes + if pos + |bytes| < |content| then content[pos + |bytes|..] else []
  }

  ghost predicate Overwritten(content: seq<byte>, pos: nat, bytes: seq<byte>, content': seq<byte>) {
    pos <= |content| && content' == Overwrite(content, pos, bytes)
  }

  lemma OverwriteTwice(content: seq<byte>, pos: nat, a: seq<byte>, b: seq<byte>)
    requires pos <= |content|
    ensures Overwrite(Overwrite(content, pos, a), pos + |a|, b) == Overwrite(content, pos, a + b)
  {
  }

  lemma OverwriteNothing(content: seq<byte>, pos: nat)
    requires pos <= |content|
    ensures Overwrite(content, pos, []) == content
  {
  }

  lemma SplicePrefix(all: seq<byte>, size: nat, pos: nat, bytes: seq<byte>)
    requires pos <= size <= |all| && pos + |bytes| <= |all|
    ensures
      var size' := if pos + |bytes| > size then pos + |bytes| else size;
      Splice(all, pos, bytes)[..size'] == Overwrite(all[..size], pos, bytes)
  {
  }

  lemma InFileBounds(g: Geometry, v: seq<Sector>, chain: seq<int>, s: int)
    requires Mappable(g, v, chain) && InFile(g, chain, s)
    ensures 0 < g.database ==> s != 0
    ensures g.database <= s < g.End()
  {
    SectorsInside(g, chain);
  }

  /** Writing the dirty buffer to its sector changes no byte of the file. */
  lemma AfterFlush(g: Geometry, v: seq<Sector>, v': seq<Sector>, chain: seq<int>, sect: int, buf: seq<byte>,
                   content: seq<byte>)
    requires Holds(g, v, chain, true, sect, buf, content) && v' == Overlay(v, true, sect, buf)
    ensures Holds(g, v', chain, false, sect, buf, content)
  {
    InFileBounds(g, v, chain, sect);
  }

  /** A failed write of the dirty buffer changes no byte of the file either: it stays dirty. */
  lemma AfterFailedFlush(g: Geometry, v: seq<Sector>, v': seq<Sector>, chain: seq<int>, sect: int, buf: seq<byte>,
                         content: seq<byte>)
    requires Holds(g, v, chain, true, sect, buf, content)
    requires |v'| == |v| && forall s :: 0 <= s < |v| && s != sect ==> v'[s] == v[s]
    ensures Holds(g, v', chain, true, sect, buf, content)
  {
    InFileBounds(g, v, chain, sect);
    assert Overlay(v', true, sect, buf) == Overlay(v, true, sect, buf);
  }

  /** A clean buffer may be replaced by a copy of any sector. */
  lemma AfterLoad(g: Geometry, v: seq<Sector>, chain: seq<int>, sect: int, buf: seq<byte>, content: seq<byte>,
                  sect': int, buf': seq<byte>)
    requires Holds(g, v, chain, false, sect, buf, content)
    requires g.database <= sect' < |v| && buf' == v[sect']
    ensures Holds(g, v, chain, false, sect', buf', content)
  {
  }

  /** Changes to the volume elsewhere. */
  lemma AfterOthers(g: Geometry, v: seq<Sector>, v': seq<Sector>, chain: seq<int>,
                    dirty: bool, sect: int, buf: seq<byte>, content: seq<byte>)
    requires Holds(g, v, chain, dirty, sect, buf, content) && |v'| == |v|
    requires forall s :: 0 <= s < |v| && InFile(g, chain, s) ==> v'[s] == v[s]
    requires 0 < sect < |v| ==> v'[sect] == v[sect]
    ensures Holds(g, v', chain, dirty, sect, buf, content)
  {
    SectorsFrame(g, Overlay(v, dirty, sect, buf), Overlay(v', dirty, sect, buf), chain);
  }

  lemma SectorBytes(g: Geometry, v: seq<Sector>, chain: seq<int>, n: nat)
    requires Mappable(g, v, chain) && n < SectorCount(g, chain)
    ensures g.database <= SectorNo(g, chain, n) < |v| && n * SS + SS <= |AllBytes(g, v, chain)|
    ensures AllBytes(g, v, chain)[n * SS..n * SS + SS] == v[SectorNo(g, chain, n)]
  {
    SectorsInside(g, chain);
    FlatSector(FileSectors(g, v, chain), 0, SectorCount(g, chain), n);
  }

  lemma AllBytesWritten(g: Geometry, v: seq<Sector>, chain: seq<int>, n: nat, x: Sector)
    requires Mappable(g, v, chain) && n < SectorCount(g, chain)
    ensures g.database <= SectorNo(g, chain, n) < |v| && n * SS + SS <= |AllBytes(g, v, chain)|
    ensures AllBytes(g, v[SectorNo(g, chain, n) := x], chain) == Splice(AllBytes(g, v, chain), n * SS, x)
  {
    hide Flat;
    SectorWritten(g, v, chain, n, x);
    var f, f' := FileSectors(g, v, chain), FileSectors(g, v, chain)[n := x];
    FlatReplace(f, f', 0, SectorCount(g, chain), n, 1);
    FlatOne(f', n);
  }

  lemma AllBytesGrow(g: Geometry, v: seq<Sector>, chain: seq<int>, chain': seq<int>)
    requires Mappable(g, v, chain) && Mappable(g, v, chain') && chain <= chain'
    ensures AllBytes(g, v, chain) <= AllBytes(g, v, chain')
  {
    hide Flat;
    SectorsGrow(g, v, chain, chain');
    var m := SectorCount(g, chain);
    FlatPrefix(FileSectors(g, v, chain), FileSectors(g, v, chain'), m, SectorCount(g, chain') - m);
  }

  /** The chain grows. */
  lemma AfterGrowth(g: Geometry, v: seq<Sector>, chain: seq<int>, chain': seq<int>,
                    dirty: bool, sect: int, buf: seq<byte>, content: seq<byte>)
    requires Holds(g, v, chain, dirty, sect, buf, content)
    requires chain <= chain' && Mappable(g, v, chain')
    ensures Holds(g, v, chain', dirty, sect, buf, content)
  {
    hide AllBytes;
    SectorsGrow(g, v, chain, chain');
    AllBytesGrow(g, Overlay(v, dirty, sect, buf), chain, chain');
    if dirty {
      var n :| 0 <= n < SectorCount(g, chain) && SectorNo(g, chain, n) == sect;
      assert SectorNo(g, chain', n) == sect;
    }
  }

  /** One byte range of the file, inside one sector. */
  lemma BytesAt(g: Geometry, v: seq<Sector>, chain: seq<int>, dirty: bool, sect: int, buf: seq<byte>,
                content: seq<byte>,
                n: nat, o: nat, len: nat)
    requires Holds(g, v, chain, dirty, sect, buf, content)
    requires 0 < len && o + len <= SS && n * SS + o + len <= |content|
    ensures n < SectorCount(g, chain) && 0 <= SectorNo(g, chain, n) < |v|
    ensures content[n * SS + o..n * SS + o + len] == Overlay(v, dirty, sect, buf)[SectorNo(g, chain, n)][o..o + len]
  {
    hide AllBytes, SectorNo;
    assert n < SectorCount(g, chain);
    SectorBytes(g, Overlay(v, dirty, sect, buf), chain, n);
    SubRange(AllBytes(g, Overlay(v, dirty, sect, buf), chain), |content|, n * SS, o, len);
  }

  lemma SubRange(all: seq<byte>, size: nat, base: nat, o: nat, len: nat)
    requires base + SS <= |all| && o + len <= SS && base + o + len <= size <= |all|
    ensures all[..size][base + o..base + o + len] == all[base..base + SS][o..o + len]
  {
    var a, b := all[..size][base + o..base + o + len], all[base..base + SS][o..o + len];
    assert |a| == |b| == len;
    assert forall j :: 0 <= j < len ==> a[j] == all[base + o + j] == b[j];
  }

  /** Storing bytes in the buffer while it holds sector `n` of the file (or, at the end of the file,
      holds anything at all) writes them to the file. */
  lemma AfterPoke(g: Geometry, v: seq<Sector>, chain: seq<int>, dirty: bool, sect: int, buf: seq<byte>,
                  content: seq<byte>,
                  n: nat, o: nat, bytes: seq<byte>)
    requires Holds(g, v, chain, dirty, sect, buf, content)
    requires n < SectorCount(g, chain) && o + |bytes| <= SS && n * SS + o <= |content|
    requires SectorNo(g, chain, n) == sect || (!dirty && o == 0 && n * SS == |content|)
    ensures Holds(g, v, chain, true, SectorNo(g, chain, n), Splice(buf, o, bytes), Overwrite(content, n * SS + o, bytes))
  {
    hide AllBytes, Overwrite, Splice;
    var s := SectorNo(g, chain, n);
    var buf' := Splice(buf, o, bytes);
    var w := Overlay(v, dirty, sect, buf);
    AllBytesWritten(g, w, chain, n, buf');
    SectorBytes(g, w, chain, n);
    assert InFile(g, chain, s);
    assert Overlay(v, true, s, buf') == w[s := buf'];
    PokePrefix(AllBytes(g, w, chain), |content|, n * SS, o, buf, bytes);
  }

  lemma PokePrefix(all: seq<byte>, size: nat, base: nat, o: nat, buf: seq<byte>, bytes: seq<byte>)
    requires size <= |all| && base + |buf| <= |all| && o + |bytes| <= |buf| && base + o <= size
    requires buf == all[base..base + |buf|] || (o == 0 && base == size)
    ensures
      var r := Overwrite(all[..size], base + o, bytes);
      |r| <= |all| && r == Splice(all, base, Splice(buf, o, bytes))[..|r|]
  {
    var s := Splice(all, base, Splice(buf, o, bytes));
    if buf == all[base..base + |buf|] {
      assert s == Splice(all, base + o, bytes);
      SplicePrefix(all, size, base + o, bytes);
    } else {
      assert s[..size + |bytes|] == all[..size] + bytes;
    }
  }

  /** Whole sectors written past the buffer. If the buffer held one of them it is refreshed. */
  lemma AfterDirect(g: Geometry, v: seq<Sector>, v': seq<Sector>, chain: seq<int>, sect: int, buf: seq<byte>,
                    content: seq<byte>,
                    n: nat, m: nat, s: nat, buf': seq<byte>)
    requires Holds(g, v, chain, false, sect, buf, content) && n * SS <= |content| && RunAt(g, chain, n, m, s)
    requires |v'| == |v| && s + m <= |v| && forall k :: 0 <= k < |v| && !(s <= k < s + m) ==> v'[k] == v[k]
    requires buf' == if s <= sect < s + m then v'[sect] else buf
    ensures n + m <= SectorCount(g, chain)
    ensures Holds(g, v', chain, false, sect, buf', Overwrite(content, n * SS, Flat(v', s, m)))
  {
    hide AllBytes, Overwrite, SectorNo;
    AllBytesRun(g, v, v', chain, n, m, s);
    SplicePrefix(AllBytes(g, v, chain), |content|, n * SS, Flat(v', s, m));
  }

  lemma AllBytesRun(g: Geometry, v: seq<Sector>, v': seq<Sector>, chain: seq<int>, n: nat, m: nat, s: nat)
    requires Mappable(g, v, chain) && RunAt(g, chain, n, m, s)
    requires |v'| == |v| && s + m <= |v| && forall k :: 0 <= k < |v| && !(s <= k < s + m) ==> v'[k] == v[k]
    ensures n + m <= SectorCount(g, chain)
    ensures AllBytes(g, v', chain) == Splice(AllBytes(g, v, chain), n * SS, Flat(v', s, m))
  {
    hide Flat, Splice, SectorNo;
    var f, f' := FileSectors(g, v, chain), FileSectors(g, v', chain);
    forall k | 0 <= k < SectorCount(g, chain) && !(n <= k < n + m)
      ensures f'[k] == f[k]
    {
      SectorOutside(g, chain, n, m, s, k);
    }
    FlatReplace(f, f', 0, SectorCount(g, chain), n, m);
    RunSectors(g, v', chain, n, m, s);
    FlatSame(f', n, v', s, m);
  }

  lemma RunSectors(g: Geometry, v: seq<Sector>, chain: seq<int>, n: nat, m: nat, s: nat)
    requires Mappable(g, v, chain) && RunAt(g, chain, n, m, s) && s + m <= |v|
    ensures FileSectors(g, v, chain)[n..n + m] == v[s..s + m]
  {
    hide SectorNo;
    var f := FileSectors(g, v, chain);
    forall k | n <= k < n + m
      ensures f[k] == v[s + (k - n)]
    {
      assert SectorNo(g, chain, k) == s + (k - n);
    }
    assert f[n..n + m] == v[s..s + m];
  }

  lemma SectorOutside(g: Geometry, chain: seq<int>, n: nat, m: nat, s: nat, k: nat)
    requires RunAt(g, chain, n, m, s) && Distinct(chain)
    requires k < SectorCount(g, chain) && !(n <= k < n + m)
    ensures !(s <= SectorNo(g, chain, k) < s + m)
  {
    var x := SectorNo(g, chain, k);
    if s <= x < s + m {
      SectorNoInjective(g, chain, k, n + (x - s));
    }
  }

  /** The buffer shows its sector of the file. */
  lemma BufferShows(g: Geometry, v: seq<Sector>, chain: seq<int>, dirty: bool, sect: int, buf: seq<byte>,
                    content: seq<byte>,
                    n: nat, o: nat, len: nat)
    requires Holds(g, v, chain, dirty, sect, buf, content)
    requires 0 < len && o + len <= SS && n * SS + o + len <= |content|
    requires n < SectorCount(g, chain) && sect == SectorNo(g, chain, n)
    ensures content[n * SS + o..n * SS + o + len] == buf[o..o + len]
  {
    BytesAt(g, v, chain, dirty, sect, buf, content, n, o, len);
  }

  /** Sectors of the file that follow one another on the device, with the dirty buffer laid over them. */
  lemma RunBytes(g: Geometry, v: seq<Sector>, chain: seq<int>, dirty: bool, sect: int, buf: seq<byte>,
                 content: seq<byte>,
                 n: nat, len: nat, s: nat, raw: seq<byte>, pos: nat)
    requires Holds(g, v, chain, dirty, sect, buf, content)
    requires RunAt(g, chain, n, len, s) && pos == n * SS && pos + len * SS <= |content|
    requires s + len <= |v| && raw == Flat(v, s, len)
    ensures content[pos..pos + len * SS] ==
            if dirty && s <= sect < s + len then Splice(raw, (sect - s) * SS, buf) else raw
  {
    hide Flat, InFile, SectorNo, Splice, AllBytes;
    var w := Overlay(v, dirty, sect, buf);
    RunPart(g, w, chain, n, len, s);
    SubRun(AllBytes(g, w, chain), |content|, pos, pos + len * SS);
    OverlayRun(v, dirty, sect, buf, s, len);
  }

  lemma OverlayRun(v: seq<Sector>, dirty: bool, sect: int, buf: Sector, s: nat, len: nat)
    requires s + len <= |v|
    ensures Flat(Overlay(v, dirty, sect, buf), s, len) ==
            if dirty && s <= sect < s + len then Splice(Flat(v, s, len), (sect - s) * SS, buf) else Flat(v, s, len)
  {
    hide Flat, Splice;
    var w := Overlay(v, dirty, sect, buf);
    if dirty && s <= sect < s + len {
      FlatReplace(v, w, s, len, sect - s, 1);
      FlatOne(w, sect);
    } else {
      assert v[s..s + len] == w[s..s + len];
      FlatSame(v, s, w, s, len);
    }
  }

  lemma SubRun(all: seq<byte>, size: nat, a: nat, b: nat)
    requires a <= b <= size <= |all|
    ensures all[..size][a..b] == all[a..b]
  {
  }

  lemma RunPart(g: Geometry, v: seq<Sector>, chain: seq<int>, n: nat, len: nat, s: nat)
    requires Mappable(g, v, chain) && RunAt(g, chain, n, len, s) && s + len <= |v|
    ensures n + len <= SectorCount(g, chain)
    ensures AllBytes(g, v, chain)[n * SS..n * SS + len * SS] == Flat(v, s, len)
  {
    hide Flat, SectorNo;
    var f := FileSectors(g, v, chain);
    FlatMiddle(f, n, len, SectorCount(g, chain) - n - len);
    RunSectors(g, v, chain, n, len, s);
    FlatSame(f, n, v, s, len);
  }

  /** The sectors of a run are sectors of the file. */
  lemma RunInFile(g: Geometry, chain: seq<int>, n: nat, len: nat, s: nat, x: int)
    requires RunAt(g, chain, n, len, s) && s <= x < s + len
    ensures InFile(g, chain, x)
  {
    var k := n + (x - s);
    assert SectorNo(g, chain, k) == x;
  }
}
