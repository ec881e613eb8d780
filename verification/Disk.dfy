/** The storage device under the volume: an array of sectors whose transfers may fail.
    Nothing is assumed about when a transfer fails. A failed read leaves unknown bytes in the
    destination, a failed write leaves unknown bytes in the sectors it was aimed at. */
module Storage {
  import opened Words
  import opened Flatten

  class Disk {
    const reliable: bool   // true for a device whose transfers never fail
    var data: seq<Sector>
    ghost var faults: nat  // number of transfers that have failed so far

    constructor (data: seq<Sector>, reliable: bool)
      ensures this.data == data && this.reliable == reliable && faults == 0
    {
      this.data, this.reliable := data, reliable;
      faults := 0;
    }

    /** A sector about which its users know nothing but its size. */
    method UnknownBytes() returns (sector: Sector)
      ensures |sector| == SS
    {
      sector := seq(SS, _ => 0);
    }

    /** From `s` to `s'`, which are the contents of a buffer, `i` sectors have been read to offset `off`. */
    static ghost predicate Loaded(s: seq<byte>, s': seq<byte>, off: nat, i: nat, v: seq<Sector>, sect: nat, ok: bool) {
      && |s'| == |s| && off + i * SS <= |s|
      && (ok ==> sect + i <= |v| && s'[off..off + i * SS] == Flat(v, sect, i))
      && s'[..off] == s[..off] && s'[off + i * SS..] == s[off + i * SS..]
    }

    static lemma LoadedNone(s: seq<byte>, off: nat, v: seq<Sector>, sect: nat, ok: bool)
      requires off <= |s| && (ok ==> sect <= |v|)
      ensures Loaded(s, s, off, 0, v, sect, ok)
    {
    }

    static lemma LoadedMore(s: seq<byte>, s': seq<byte>, off: nat, i: nat, v: seq<Sector>, sect: nat, ok: bool,
                            sector: Sector)
      requires Loaded(s, s', off, i, v, sect, ok) && off + i * SS + SS <= |s|
      requires ok ==> sect + i < |v| && sector == v[sect + i]
      ensures Loaded(s, Splice(s', off + i * SS, sector), off, i + 1, v, sect, ok)
    {
      hide Splice;
      SpliceParts(s', off, off + i * SS, sector);
      assert s'[off + i * SS + SS..] == s'[off + i * SS..][SS..];
      assert s[off + i * SS + SS..] == s[off + i * SS..][SS..];
    }

    static lemma LoadedAll(s: seq<byte>, s': seq<byte>, off: nat, n: nat, v: seq<Sector>, sect: nat, ok: bool)
      requires Loaded(s, s', off, n, v, sect, ok)
      ensures |s'| == |s| && off + n * SS <= |s|
      ensures ok ==> sect + n <= |v| && s'[off..off + n * SS] == Flat(v, sect, n)
      ensures s'[..off] == s[..off] && s'[off + n * SS..] == s[off + n * SS..]
    {
    }

    /** disk_read: `count` sectors from `sect` on, into `buf` from index `off` on. */
    method Read(buf: array<byte>, off: nat, sect: u32, count: nat) returns (ok: bool)
      requires off + count * SS <= buf.Length
      modifies this`faults, buf
      ensures old(faults) <= faults
      ensures ok <==> faults == old(faults)
      ensures reliable && sect + count <= |data| ==> ok
      ensures ok ==> sect + count <= |data| && buf[off..off + count * SS] == Flat(data, sect, count)
      ensures buf[..off] == old(buf[..off]) && buf[off + count * SS..] == old(buf[off + count * SS..])
    {
      hide Splice, Loaded;
      ok := *;
      ok := sect + count <= |data| && (reliable || ok);
      var i := 0;
      LoadedNone(buf[..], off, data, sect, ok);
      while i < count
        invariant 0 <= i <= count
        invariant Loaded(old(buf[..]), buf[..], off, i, data, sect, ok)
        modifies buf
      {
        var sector := UnknownBytes();
        if ok {
          sector := data[sect + i];
        }
        ghost var was := buf[..];
        CopyInto(buf, off + i * SS, sector);
        LoadedMore(old(buf[..]), was, off, i, data, sect, ok, sector);
        i := i + 1;
      }
      LoadedAll(old(buf[..]), buf[..], off, count, data, sect, ok);
      if !ok {
        faults := faults + 1;
      }
    }

    /** disk_write: the sectors in `src` to the device from sector `sect` on. */
    method Write(src: seq<byte>, sect: u32, count: nat) returns (ok: bool)
      requires |src| == count * SS
      modifies this
      ensures old(faults) <= faults
      ensures ok <==> faults == old(faults)
      ensures reliable && sect + count <= |data| ==> ok
      ensures |data| == |old(data)|
      ensures ok ==> sect + count <= |data| && Flat(data, sect, count) == src
      ensures forall s :: 0 <= s < |data| && !(sect <= s < sect + count) ==> data[s] == old(data)[s]
    {
      ok := *;
      ok := sect + count <= |data| && (reliable || ok);
      var i := 0;
      while i < count
        invariant 0 <= i <= count
        invariant |data| == |old(data)|
        invariant ok ==> Flat(data, sect, i) == src[..i * SS]
        invariant forall s :: 0 <= s < |data| && !(sect <= s < sect + i) ==> data[s] == old(data)[s]
        modifies this`data
      {
        if sect + i < |data| {
          var sector := UnknownBytes();
          if ok {
            sector := src[i * SS..(i + 1) * SS];
          }
          ghost var before := data;
          data := data[sect + i := sector];
          if ok {
            FlatSame(before, sect, data, sect, i);
          }
        }
        i := i + 1;
      }
      if !ok {
        faults := faults + 1;
      }
    }
  }
}
