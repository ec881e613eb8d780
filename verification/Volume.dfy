/** The filesystem object: a one-sector write-back window over the device, and the FAT read and
    written through it. */
module Volume {
  import opened Words
  import opened Flatten
  import opened Storage
  import opened FatLayout
  import opened Geometry

  const DISK_ERROR: u32 := 0xFFFF_FFFF   // get_fat, create_chain: transfer failed
  const INTERNAL_ERROR: u32 := 1         // get_fat, create_chain: insane cluster number or entry
  const NO_SECTOR: u32 := 0xFFFF_FFFF    // winsect when win holds nothing

  class Volume {
    const g: Geometry
    const disk: Disk
    const win: array<byte>
    var winsect: u32
    var wflag: bool
    var lastClst: u32
    var freeClst: u32
    var fsiDirty: bool
    ghost var fat: seq<int>  // all entries of the first FAT, decoded

    constructor (g: Geometry, disk: Disk)
      requires g.Sound() && g.End() <= |disk.data| <= NO_SECTOR
      ensures Valid() && fresh(win) && this.g == g && this.disk == disk
      ensures winsect == NO_SECTOR && !wflag && freeClst == 0xFFFF_FFFF && lastClst == 0xFFFF_FFFF
      ensures Mirrored() <==>
              (g.nFats == 2 ==>
                 forall s: nat :: g.InFat(s) ==> disk.data[s + g.fsize] == disk.data[s])
    {
      this.g := g;
      this.disk := disk;
      win := new byte[SS];
      winsect, wflag := NO_SECTOR, false;
      lastClst, freeClst := 0xFFFF_FFFF, 0xFFFF_FFFF;
      fsiDirty := false;
      new;
      var tab := Flat(disk.data, g.fatbase, g.fsize);
      fat := seq(g.nFatEnt, c requires 0 <= c < g.nFatEnt => EntryOf(g, tab, c));
    }

    ghost predicate Valid()
      reads `winsect, `wflag, `fat, win, disk`data
      ensures Valid() ==> win.Length == SS && g.Sound() && 3 <= g.nFatEnt <= Eoc(g.fsType) && |fat| == g.nFatEnt
    {
      && win.Length == SS
      && g.Sound()
      && g.End() <= |disk.data| <= NO_SECTOR
      && (winsect < |disk.data| || (winsect == NO_SECTOR && !wflag))
      && (winsect < |disk.data| && !wflag ==> win[..] == disk.data[winsect])
      && |fat| == g.nFatEnt
      && Decodes(g.fsType, Table(), fat)
    }

    /** The volume as its users see it: the device, with a dirty window in place of its sector. */
    function View(): (v: seq<Sector>)
      reads `winsect, `wflag, win, disk`data
      ensures |v| == |disk.data|
    {
      if wflag && win.Length == SS && winsect < |disk.data| then disk.data[winsect := win[..]] else disk.data
    }

    function Table(): (tab: seq<byte>)
      requires g.fatbase + g.fsize <= |disk.data|
      reads `winsect, `wflag, win, disk`data
      ensures tab == Flat(View(), g.fatbase, g.fsize) && |tab| == g.fsize * SS
    {
      Flat(View(), g.fatbase, g.fsize)
    }

    /** The entry of cluster `clst`, looked at without a transfer. (No function of the code does that: it is
        for telling what a run has come to.) */
    function Peek(clst: u32): (val: u32)
      requires Valid() && g.IsCluster(clst)
      reads `winsect, `wflag, `fat, win, disk`data
      ensures val == fat[clst]
    {
      assert Fits(g.fsType, Table(), clst);
      Entry(g.fsType, Table(), clst)
    }

    lemma Contents()
      requires Valid()
      ensures g.FatsEnd() <= g.database <= |disk.data| <= NO_SECTOR
      ensures Decodes(g.fsType, Table(), fat)
      ensures forall c :: 0 <= c < g.nFatEnt ==> Fits(g.fsType, Table(), c)
    {
    }

    /** The entries in the bytes of the logical table. */
    lemma EntryInBytes(c: nat)
      requires Valid() && c < g.nFatEnt
      ensures g.fsType == Fat12 ==>
                && c * 3 / 2 + 1 < |Table()|
                && var b0: int, b1: int := Table()[c * 3 / 2], Table()[c * 3 / 2 + 1];
                   fat[c] == if c % 2 == 0 then b0 + 0x100 * (b1 % 0x10) else b0 / 0x10 + 0x10 * b1
      ensures g.fsType == Fat16 ==>
                && 2 * c + 1 < |Table()|
                && var b0: int, b1: int := Table()[2 * c], Table()[2 * c + 1];
                   fat[c] == b0 + 0x100 * b1
      ensures g.fsType == Fat32 ==>
                && 4 * c + 3 < |Table()|
                && var b0: int, b1: int, b2: int, b3: int :=
                     Table()[4 * c], Table()[4 * c + 1], Table()[4 * c + 2], Table()[4 * c + 3];
                   fat[c] == b0 + 0x100 * b1 + 0x1_0000 * b2 + 0x100_0000 * (b3 % 0x10)
    {
      hide Volume.Valid, Volume.View, Volume.Table, Entry, Flat;
      Contents();
      assert Fits(g.fsType, Table(), c);
      EntryBytes(g.fsType, Table(), c);
    }

    /** Every sector of the second FAT equals its original, except the one whose original waits
        in the window. */
    ghost predicate Mirrored()
      reads `winsect, `wflag, disk`data
    {
      g.nFats == 2 ==>
        && !g.InMirror(winsect)
        && g.FatsEnd() <= |disk.data|
        && forall s: nat :: g.InFat(s) && !(wflag && winsect == s) ==> disk.data[s + g.fsize] == disk.data[s]
    }

    ghost function Snap(): (s: Snapshot)
      reads `winsect, `wflag, `fat, `freeClst, win, disk
      ensures s.faults == disk.faults && s.view == View() && s.fat == fat && s.window == winsect
                && s.freeClst == freeClst
    {
      Snapshot(View(), fat, disk.faults, Mirrored(), winsect, freeClst)
    }

    /** sync_window. The second FAT's copy is written on a best-effort basis, as in the code. */
    method SyncWindow() returns (res: FResult)
      requires Valid()
      modifies this`wflag, disk
      ensures Valid() && old(disk.faults) <= disk.faults
      ensures res == Ok ==> !wflag
      ensures res == Ok
                || (res == DiskErr && old(disk.faults) < disk.faults && wflag == old(wflag) && View() == old(View()))
      ensures disk.reliable ==> res == Ok
      ensures Keeps(g, old(Snap()), Snap()) && |disk.data| == old(|disk.data|)
    {
      hide Decodes, Flat, Sub32;
      res := Ok;
      if wflag {
        ghost var v := View();
        var ok := disk.Write(win[..], winsect, 1);
        if ok {
          FlatOne(disk.data, winsect);
          wflag := false;
          assert disk.data == v && Valid();
          OffsetTest(winsect, g.fatbase, g.fsize);
          if Sub32(winsect, g.fatbase) < g.fsize {
            if g.nFats == 2 {
              Reflect();
            }
          }
        } else {
          res := DiskErr;
          assert View() == v;
        }
      }
    }

    /** The second half of sync_window: copy a FAT sector just written to the second FAT. */
    method Reflect()
      requires Valid() && !wflag && g.nFats == 2 && g.InFat(winsect)
      modifies disk
      ensures Valid() && old(disk.faults) <= disk.faults
      ensures Keeps(g, old(Snap()), Snap())
      ensures disk.faults == old(disk.faults) ==> disk.data == old(disk.data)[winsect + g.fsize := disk.data[winsect]]
    {
      hide Decodes, Flat;
      var ok := disk.Write(win[..], winsect + g.fsize, 1);
      if ok {
        FlatOne(disk.data, winsect + g.fsize);
      }
      SameTable(g, old(View()), View());
    }

    /** move_window. (No function ever moves the window into the second FAT.) */
    method MoveWindow(sect: u32) returns (res: FResult)
      requires Valid() && !g.InMirror(sect)
      modifies this`winsect, this`wflag, win, disk
      ensures Valid() && old(disk.faults) <= disk.faults
      ensures KeepsData(g, old(Snap()), Snap()) && |disk.data| == old(|disk.data|)
      ensures g.InFat(sect) ==> Keeps(g, old(Snap()), Snap())
      ensures res == Ok ==> winsect == sect
      ensures res != Ok ==> winsect in {old(winsect), NO_SECTOR} && sect != old(winsect)
      ensures disk.reliable && sect < old(|disk.data|) ==> res == Ok
      ensures res == Ok && sect < |disk.data| ==> win[..] == View()[sect]
      ensures res == Ok || (res == DiskErr && old(disk.faults) < disk.faults)
    {
      hide Decodes, Flat;
      res := Ok;
      if sect != winsect {
        res := SyncWindow();
        if res == Ok {
          var ok := disk.Read(win, 0, sect, 1);
          var s := sect;
          if !ok {
            s := NO_SECTOR;
            res := DiskErr;
          } else {
            FlatOne(disk.data, sect);
            assert win[..] == win[0..0 + 1 * SS];
          }
          winsect := s;
        }
      }
    }

    /** clst2sect: the first sector of a cluster, 0 for an invalid cluster number. */
    function ClusterToSector(clst: u32): (s: nat)
      requires g.Sound()
      ensures g.IsCluster(clst) ==> s == g.ClusterSector(clst) && s >= g.database
      ensures !g.IsCluster(clst) <==> s == 0
    {
      var n := Sub32(clst, 2);
      if n >= g.nFatEnt - 2 then 0 else g.database + g.csize * n
    }

    /** move_window to the table sector that holds byte `i`. */
    method MoveToTable(i: nat) returns (res: FResult)
      requires Valid() && i < g.fsize * SS
      modifies this`winsect, this`wflag, win, disk
      ensures Valid() && old(disk.faults) <= disk.faults
      ensures Keeps(g, old(Snap()), Snap()) && Table() == old(Table())
      ensures res == Ok ==> winsect == g.fatbase + i / SS && win[..] == View()[winsect]
      ensures res == Ok ==> forall j :: 0 <= j < SS ==> win[j] == Table()[i / SS * SS + j]
      ensures res == Ok || (res == DiskErr && old(disk.faults) < disk.faults)
      ensures res != Ok ==> old(winsect) != g.fatbase + i / SS
      ensures winsect in {old(winsect), NO_SECTOR} || g.InFat(winsect)
      ensures disk.reliable ==> res == Ok
    {
      res := MoveWindow(g.fatbase + i / SS);
      SameTable(g, old(View()), View());
      if res == Ok {
        forall j | 0 <= j < SS
          ensures win[j] == Table()[i / SS * SS + j]
        {
          FlatAt(View(), g.fatbase, g.fsize, i / SS, j);
          assert win[j] == win[..][j];
        }
      }
    }

    /** move_window to table byte `i`, and the byte. */
    method TableByte(i: nat) returns (res: FResult, b: byte)
      requires Valid() && i < g.fsize * SS
      modifies this`winsect, this`wflag, win, disk
      ensures Valid() && old(disk.faults) <= disk.faults
      ensures Keeps(g, old(Snap()), Snap()) && Table() == old(Table())
      ensures res == Ok ==> g.InFat(winsect) && b == Table()[i]
      ensures res == Ok || (res == DiskErr && old(disk.faults) < disk.faults)
      ensures winsect in {old(winsect), NO_SECTOR} || g.InFat(winsect)
      ensures disk.reliable ==> res == Ok
    {
      res := MoveToTable(i);
      b := win[i % SS];
    }

    /** move_window to the word of FAT32 entry `clst`, and the word. */
    method TableDword(clst: u32) returns (res: FResult, w: u32)
      requires Valid() && Fits(Fat32, Table(), clst)
      modifies this`winsect, this`wflag, win, disk
      ensures Valid() && old(disk.faults) <= disk.faults
      ensures Keeps(g, old(Snap()), Snap()) && Table() == old(Table())
      ensures res == Ok ==> winsect == g.fatbase + clst * 4 / SS && win[..] == View()[winsect]
      ensures res == Ok ==> w == Dword(Table(), clst * 4)
      ensures res == Ok || (res == DiskErr && old(disk.faults) < disk.faults)
      ensures winsect in {old(winsect), NO_SECTOR} || g.InFat(winsect)
      ensures disk.reliable ==> res == Ok
    {
      hide Volume.Valid, Volume.View, Volume.Snap, Volume.Table, Keeps, Dword;
      Contents();
      Aligned(clst, 4, SS / 4);
      res := MoveToTable(clst * 4);
      if res == Ok {
        w := Dword(win[..], clst * 4 % SS);
        ghost var o := clst * 4 % SS;
        Contents();
        assert win[..][o] == win[o] && win[..][o + 1] == win[o + 1] && win[..][o + 2] == win[o + 2]
            && win[..][o + 3] == win[o + 3];
        SameDword(win[..], o, Table(), clst * 4);
      } else {
        w := 0;
      }
    }

    /** get_fat: the entry of cluster `clst`, or one of the two error values. */
    method GetFat(clst: u32) returns (val: u32)
      requires Valid()
      modifies this`winsect, this`wflag, win, disk
      ensures Valid() && old(disk.faults) <= disk.faults
      ensures Keeps(g, old(Snap()), Snap())
      ensures if !g.IsCluster(clst) then val == 1
              else if val == 0xFFFF_FFFF then old(disk.faults) < disk.faults
              else val == fat[clst] && g.InFat(winsect)
      ensures winsect in {old(winsect), NO_SECTOR} || g.InFat(winsect)
      ensures disk.reliable ==> val != DISK_ERROR
    {
      if clst < 2 || clst >= g.nFatEnt {
        val := INTERNAL_ERROR;
      } else {
        assert Fits(g.fsType, Table(), clst);
        match g.fsType
        case Fat12 => val := GetFat12(clst);
        case Fat16 => val := GetFat16(clst);
        case Fat32 => val := GetFat32(clst);
      }
    }

    method GetFat12(clst: u32) returns (val: u32)
      requires Valid() && g.IsCluster(clst) && g.fsType == Fat12
      modifies this`winsect, this`wflag, win, disk
      ensures Valid() && old(disk.faults) <= disk.faults
      ensures Keeps(g, old(Snap()), Snap())
      ensures if val == DISK_ERROR then old(disk.faults) < disk.faults else val == fat[clst] && g.InFat(winsect)
      ensures val != DISK_ERROR ==>
                && clst * 3 / 2 + 1 < |Table()|
                && var b0: int, b1: int := Table()[clst * 3 / 2], Table()[clst * 3 / 2 + 1];
                   val == if clst % 2 == 0 then b0 + 0x100 * (b1 % 0x10) else b0 / 0x10 + 0x10 * b1
      ensures winsect in {old(winsect), NO_SECTOR} || g.InFat(winsect)
      ensures disk.reliable ==> val != DISK_ERROR
    {
      hide Volume.Valid, Volume.Snap, Volume.Table, Volume.View, Decodes, Pick12;
      Contents();
      val := DISK_ERROR;
      ghost var tab := Table();
      Entry12(tab, fat, clst);
      var bc := clst + clst / 2;
      var res, lo := TableByte(bc);
      if res != Ok { return; }
      var hi;
      res, hi := TableByte(bc + 1);
      if res != Ok { return; }
      val := Pick12(clst, lo, hi);
      EntryInBytes(clst);
    }

    method GetFat16(clst: u32) returns (val: u32)
      requires Valid() && g.IsCluster(clst) && g.fsType == Fat16
      modifies this`winsect, this`wflag, win, disk
      ensures Valid() && old(disk.faults) <= disk.faults
      ensures Keeps(g, old(Snap()), Snap())
      ensures if val == DISK_ERROR then old(disk.faults) < disk.faults else val == fat[clst] && g.InFat(winsect)
      ensures val != DISK_ERROR ==>
                && 2 * clst + 1 < |Table()|
                && var b0: int, b1: int := Table()[2 * clst], Table()[2 * clst + 1];
                   val == b0 + 0x100 * b1
      ensures winsect in {old(winsect), NO_SECTOR} || g.InFat(winsect)
      ensures disk.reliable ==> val != DISK_ERROR
    {
      hide Volume.Valid, Volume.View, Volume.Snap, Keeps;
      Contents();
      EntryInSector(Fat16, View(), g.fatbase, g.fsize, clst);
      assert |View()| == |disk.data|;
      Aligned(clst, 2, SS / 2);
      val := DISK_ERROR;
      var res := MoveWindow(g.fatbase + clst / (SS / 2));
      if res != Ok { return; }
      EntryShown(clst);
      var o := clst * 2 % SS;
      val := Word16(win[o], win[o + 1]);
      EntryInBytes(clst);
    }

    method GetFat32(clst: u32) returns (val: u32)
      requires Valid() && g.IsCluster(clst) && g.fsType == Fat32
      modifies this`winsect, this`wflag, win, disk
      ensures Valid() && old(disk.faults) <= disk.faults
      ensures Keeps(g, old(Snap()), Snap())
      ensures if val == DISK_ERROR then old(disk.faults) < disk.faults else val == fat[clst] && g.InFat(winsect)
      ensures val != DISK_ERROR ==>
                && 4 * clst + 3 < |Table()|
                && var b0: int, b1: int, b2: int, b3: int :=
                     Table()[4 * clst], Table()[4 * clst + 1], Table()[4 * clst + 2], Table()[4 * clst + 3];
                   val == b0 + 0x100 * b1 + 0x1_0000 * b2 + 0x100_0000 * (b3 % 0x10)
      ensures winsect in {old(winsect), NO_SECTOR} || g.InFat(winsect)
      ensures disk.reliable ==> val != DISK_ERROR
    {
      hide Volume.Valid, Volume.View, Volume.Snap, Keeps;
      Contents();
      EntryInSector(Fat32, View(), g.fatbase, g.fsize, clst);
      assert |View()| == |disk.data|;
      Aligned(clst, 4, SS / 4);
      val := DISK_ERROR;
      var res := MoveWindow(g.fatbase + clst / (SS / 4));
      if res != Ok { return; }
      EntryShown(clst);
      val := Dword(win[..], clst * 4 % SS) % 0x1000_0000;
      EntryInBytes(clst);
    }

    /** Stores bytes of the table through the window, which already shows their sector. */
    method StoreInTable(i: nat, bytes: seq<byte>, ghost fat': seq<int>)
      requires Valid() && i < g.fsize * SS && i % SS + |bytes| <= SS
      requires winsect == g.fatbase + i / SS && win[..] == View()[winsect]
      requires i + |bytes| <= |Table()| && |fat'| == |fat|
      requires Decodes(g.fsType, Splice(Table(), i, bytes), fat')
      modifies this`wflag, this`fat, win
      ensures Valid() && fat == fat' && g.InFat(winsect)
      ensures Table() == Splice(old(Table()), i, bytes)
      ensures Updates(g, old(Snap()), Snap())
    {
      hide Decodes, Flat;
      ghost var v := View();
      FlatAfterStore(v, g.fatbase, g.fsize, i / SS, i % SS, bytes);
      CopyInto(win, i % SS, bytes);
      wflag := true;
      fat := fat';
      assert View() == v[winsect := Splice(v[winsect], i % SS, bytes)];
    }

    /** disk_read of file data, which never passes through the window. */
    method ReadData(buf: array<byte>, off: nat, sect: u32, count: nat) returns (ok: bool)
      requires Valid() && buf != win && off + count * SS <= buf.Length
      requires !(sect <= winsect < sect + count)
      modifies disk`faults, buf
      ensures Valid() && old(disk.faults) <= disk.faults && (ok <==> disk.faults == old(disk.faults))
      ensures Keeps(g, old(Snap()), Snap()) && View() == old(View())
      ensures ok ==> sect + count <= |View()| && buf[off..off + count * SS] == Flat(View(), sect, count)
      ensures buf[..off] == old(buf[..off]) && buf[off + count * SS..] == old(buf[off + count * SS..])
    {
      hide Decodes, Flat;
      ok := disk.Read(buf, off, sect, count);
      if ok {
        FlatSame(disk.data, sect, View(), sect, count);
      }
    }

    /** disk_write of file data, which never passes through the window. */
    method WriteData(src: seq<byte>, sect: u32, count: nat) returns (ok: bool)
      requires Valid() && |src| == count * SS
      requires g.database <= sect && !(sect <= winsect < sect + count)
      modifies disk
      ensures Valid() && old(disk.faults) <= disk.faults && (ok <==> disk.faults == old(disk.faults))
      ensures WritesOnly(g, old(Snap()), Snap(), sect, count)
      ensures ok ==> sect + count <= |View()| && Flat(View(), sect, count) == src
    {
      hide Decodes, Flat, CsizeOk, Fits;
      ok := disk.Write(src, sect, count);
      if ok {
        assert disk.data[sect..sect + count] == View()[sect..sect + count];
        FlatSame(disk.data, sect, View(), sect, count);
      }
      SameTable(g, old(View()), View());
    }

    /** put_fat: sets the entry of cluster `clst`, cut to the width of an entry. */
    method PutFat(clst: u32, val: u32) returns (res: FResult)
      requires Valid()
      modifies this`winsect, this`wflag, this`fat, win, disk
      ensures Valid() && old(disk.faults) <= disk.faults
      ensures Updates(g, old(Snap()), Snap())
      ensures !g.IsCluster(clst) ==> res == IntErr && fat == old(fat)
      ensures g.IsCluster(clst) ==> res == Ok || (res == DiskErr && old(disk.faults) < disk.faults)
      ensures winsect in {old(winsect), NO_SECTOR} || g.InFat(winsect)
      ensures disk.reliable && g.IsCluster(clst) ==> res == Ok
      ensures res != Ok && g.fsType != Fat12 ==> fat == old(fat)
      ensures res != Ok && g.IsCluster(clst) ==>
                fat[clst] / 0x100 == old(fat)[clst] / 0x100 && LeftBehind(clst, val, old(fat)[clst], fat[clst])
      ensures res == Ok ==> g.InFat(winsect) && fat == old(fat)[clst := Masked(g.fsType, val)]
      ensures |fat| == |old(fat)| && forall d :: 0 <= d < |fat| && d != clst ==> fat[d] == old(fat)[d]
    {
      res := IntErr;
      if clst >= 2 && clst < g.nFatEnt {
        match g.fsType
        case Fat12 => res := PutFat12(clst, val);
        case Fat16 => res := PutFat16(clst, val);
        case Fat32 => res := PutFat32(clst, val);
      }
    }

    method PutFat12(clst: u32, val: u32) returns (res: FResult)
      requires Valid() && g.IsCluster(clst) && g.fsType == Fat12
      modifies this`winsect, this`wflag, this`fat, win, disk
      ensures Valid() && old(disk.faults) <= disk.faults
      ensures Updates(g, old(Snap()), Snap())
      ensures res == Ok || (res == DiskErr && old(disk.faults) < disk.faults)
      ensures winsect in {old(winsect), NO_SECTOR} || g.InFat(winsect)
      ensures disk.reliable ==> res == Ok
      ensures res == Ok ==> g.InFat(winsect) && fat == old(fat)[clst := Masked(g.fsType, val)]
      ensures |fat| == |old(fat)| && forall d :: 0 <= d < |fat| && d != clst ==> fat[d] == old(fat)[d]
      ensures res == Ok ==> Holds12(old(Table()), clst, val, Table())
      // a half-written entry keeps its upper four bits
      ensures res != Ok ==> fat[clst] / 0x100 == old(fat)[clst] / 0x100
      ensures res != Ok ==> LeftBehind(clst, val, old(fat)[clst], fat[clst])
    {
      hide Volume.Valid, Volume.Snap, Volume.Table, Volume.View, Keeps, Updates, HalfWritten, Decodes, LeftBehind,
           Straddles, Masked, Low12, High12, Pick12, Holds12;
      Contents();
      ghost var tab := Table();
      Entry12(tab, fat, clst);
      Halves(clst, val, fat[clst]);
      var bc := clst + clst / 2;
      res := MoveToTable(bc);
      KeepsUpdates(g, old(Snap()), Snap());
      if res != Ok { return; }
      ghost var s := Snap();
      ghost var was := StoreLow12(clst, val);
      UpdatesTrans(g, old(Snap()), s, Snap());
      s := Snap();
      res := PutHigh12(clst, val, old(fat), was, tab);
      UpdatesTrans(g, old(Snap()), s, Snap());
    }

    /** The second half of that: `tab` is the table before the first. */
    method PutHigh12(clst: u32, val: u32, ghost fat0: seq<int>, ghost was: byte, ghost tab: seq<byte>)
      returns (res: FResult)
      requires Valid() && g.IsCluster(clst) && g.fsType == Fat12
      requires EntryStart(Fat12, clst) + 1 < |tab| && |tab| == g.fsize * SS
      requires Table() == tab[EntryStart(Fat12, clst) := Low12(clst, val, was)] && was == tab[EntryStart(Fat12, clst)]
      requires |fat| == |fat0| && fat == fat0[clst := fat[clst]]
      modifies this`winsect, this`wflag, this`fat, win, disk
      ensures Valid() && old(disk.faults) <= disk.faults
      ensures Updates(g, old(Snap()), Snap())
      ensures res == Ok || (res == DiskErr && old(disk.faults) < disk.faults)
      ensures winsect in {old(winsect), NO_SECTOR} || g.InFat(winsect)
      ensures disk.reliable ==> res == Ok
      ensures res == Ok ==> g.InFat(winsect) && fat == fat0[clst := Masked(Fat12, val)]
      ensures res == Ok ==> Holds12(tab, clst, val, Table())
      ensures res != Ok ==> fat == old(fat) && old(winsect) != g.fatbase + (EntryStart(Fat12, clst) + 1) / SS
    {
      hide Volume.Valid, Volume.Snap, Volume.Table, Volume.View, Keeps, Updates, Decodes, Masked, Low12, High12, Pick12,
           Holds12;
      Contents();
      ghost var tab' := Table();
      res := MoveToTable(clst + clst / 2 + 1);
      KeepsUpdates(g, old(Snap()), Snap());
      if res != Ok { return; }
      ghost var s := Snap();
      StoreHigh12(clst, val, fat0, was);
      Contents();
      Written12(tab, tab', Table(), clst, val);
      UpdatesTrans(g, old(Snap()), s, Snap());
    }

    method StoreLow12(clst: u32, val: u32) returns (ghost was: byte)
      requires Valid() && g.IsCluster(clst) && g.fsType == Fat12
      requires Fits(Fat12, Table(), clst)
      requires winsect == g.fatbase + EntryStart(Fat12, clst) / SS && win[..] == View()[winsect]
      modifies this`wflag, this`fat, win
      ensures Valid() && g.InFat(winsect)
      ensures Updates(g, old(Snap()), Snap())
      ensures |Table()| == |old(Table())| && Table()[EntryStart(Fat12, clst)] == Low12(clst, val, was)
      ensures was == old(Table())[EntryStart(Fat12, clst)]
      ensures Table() == old(Table())[EntryStart(Fat12, clst) := Low12(clst, val, was)]
      ensures |fat| == |old(fat)| && fat == old(fat)[clst := fat[clst]] && fat[clst] / 0x100 == old(fat)[clst] / 0x100
      ensures 0 <= old(fat)[clst] < 0x1000 && fat[clst] == HalfWritten(clst, val, old(fat)[clst])
                && winsect == old(winsect)
    {
      hide Volume.Valid, Volume.Snap, Volume.Table, Keeps, Updates;
      Contents();
      ghost var tab := Table();
      var bc := clst + clst / 2;
      was := tab[bc];
      FirstByteOnly(clst, val, tab[bc], tab[bc + 1]);
      FlatAt(View(), g.fatbase, g.fsize, bc / SS, bc % SS);
      assert win[..][bc % SS] == tab[bc];
      FirstHalf12(tab, clst, val, fat);
      var low := Low12(clst, val, win[bc % SS]);
      assert Splice(tab, bc, [low]) == tab[bc := low];
      StoreInTable(bc, [low], fat[clst := Entry(Fat12, tab[bc := low], clst)]);
    }

    method StoreHigh12(clst: u32, val: u32, ghost fat0: seq<int>, ghost was: byte)
      requires Valid() && g.IsCluster(clst) && g.fsType == Fat12
      requires Fits(Fat12, Table(), clst) && Table()[EntryStart(Fat12, clst)] == Low12(clst, val, was)
      requires winsect == g.fatbase + (EntryStart(Fat12, clst) + 1) / SS && win[..] == View()[winsect]
      requires |fat| == |fat0| && fat == fat0[clst := fat[clst]]
      modifies this`wflag, this`fat, win
      ensures Valid() && g.InFat(winsect)
      ensures Updates(g, old(Snap()), Snap())
      ensures fat == fat0[clst := Masked(Fat12, val)]
      ensures
        var i := EntryStart(Fat12, clst) + 1;
        Table() == old(Table())[i := High12(clst, val, old(Table())[i])]
    {
      hide Volume.Valid, Volume.Snap, Volume.Table, Keeps, Updates;
      Contents();
      ghost var tab := Table();
      var bc := clst + clst / 2 + 1;
      FlatAt(View(), g.fatbase, g.fsize, bc / SS, bc % SS);
      assert win[..][bc % SS] == tab[bc];
      SecondHalf12(tab, clst, val, fat);
      var high := High12(clst, val, win[bc % SS]);
      assert Splice(tab, bc, [high]) == tab[bc := high];
      StoreInTable(bc, [high], fat[clst := Masked(Fat12, val)]);
    }

    method PutFat16(clst: u32, val: u32) returns (res: FResult)
      requires Valid() && g.IsCluster(clst) && g.fsType == Fat16
      modifies this`winsect, this`wflag, this`fat, win, disk
      ensures Valid() && old(disk.faults) <= disk.faults
      ensures Updates(g, old(Snap()), Snap())
      ensures res == Ok || (res == DiskErr && old(disk.faults) < disk.faults)
      ensures winsect in {old(winsect), NO_SECTOR} || g.InFat(winsect)
      ensures disk.reliable ==> res == Ok
      ensures res != Ok && g.fsType != Fat12 ==> fat == old(fat)
      ensures res == Ok ==> g.InFat(winsect) && fat == old(fat)[clst := Masked(g.fsType, val)]
      ensures |fat| == |old(fat)| && forall d :: 0 <= d < |fat| && d != clst ==> fat[d] == old(fat)[d]
      ensures res == Ok ==>
                && 2 * clst + 1 < |old(Table())|
                && Table() == old(Table())[2 * clst := val % 0x100][2 * clst + 1 := val / 0x100 % 0x100]
    {
      hide Volume.Valid, Volume.Snap, Volume.Table, Volume.View, Keeps, Updates, Splice, Bytes16, Decodes, Masked, Entry;
      Contents();
      ghost var tab := Table();
      assert Fits(Fat16, tab, clst);
      Aligned(clst, 2, SS / 2);
      res := MoveToTable(clst * 2);
      KeepsUpdates(g, old(Snap()), Snap());
      if res != Ok { return; }
      ghost var s := Snap();
      Store16(tab, clst, val, fat);
      Written16(tab, clst, val);
      StoreInTable(clst * 2, Bytes16(val), fat[clst := Masked(Fat16, val)]);
      UpdatesTrans(g, old(Snap()), s, Snap());
    }

    method PutFat32(clst: u32, val: u32) returns (res: FResult)
      requires Valid() && g.IsCluster(clst) && g.fsType == Fat32
      modifies this`winsect, this`wflag, this`fat, win, disk
      ensures Valid() && old(disk.faults) <= disk.faults
      ensures Updates(g, old(Snap()), Snap())
      ensures res == Ok || (res == DiskErr && old(disk.faults) < disk.faults)
      ensures winsect in {old(winsect), NO_SECTOR} || g.InFat(winsect)
      ensures disk.reliable ==> res == Ok
      ensures res != Ok && g.fsType != Fat12 ==> fat == old(fat)
      ensures res == Ok ==> g.InFat(winsect) && fat == old(fat)[clst := Masked(g.fsType, val)]
      ensures |fat| == |old(fat)| && forall d :: 0 <= d < |fat| && d != clst ==> fat[d] == old(fat)[d]
      // the upper four bits of the last byte are not part of the entry
      ensures clst * 4 + 3 < |Table()| && Table()[clst * 4 + 3] / 16 == old(Table()[clst * 4 + 3]) / 16
      ensures res == Ok ==>
                && 4 * clst + 3 < |old(Table())|
                && var b3: int := old(Table())[4 * clst + 3];
                   Table() == old(Table())[4 * clst := val % 0x100][4 * clst + 1 := val / 0x100 % 0x100]
                              [4 * clst + 2 := val / 0x1_0000 % 0x100]
                              [4 * clst + 3 := val / 0x100_0000 % 0x10 + b3 / 0x10 * 0x10]
    {
      hide Volume.Valid, Volume.Snap, Volume.Table, Volume.View, Keeps, Updates, Splice, Bytes32, Merged32, Dword, Decodes,
           Masked, Entry;
      Contents();
      ghost var tab := Table();
      assert Fits(Fat32, tab, clst);
      var was;
      res, was := TableDword(clst);
      KeepsUpdates(g, old(Snap()), Snap());
      if res != Ok { return; }
      ghost var s := Snap();
      Aligned(clst, 4, SS / 4);
      Store32(tab, clst, val, was, fat);
      Written32(tab, clst, val);
      StoreInTable(clst * 4, Bytes32(Merged32(val, was)), fat[clst := Masked(Fat32, val)]);
      UpdatesTrans(g, old(Snap()), s, Snap());
    }

    /** An entry of 2 or 4 bytes, as the window shows it. */
    lemma EntryShown(e: nat)
      requires Valid() && e < g.nFatEnt && g.fsType != Fat12
      requires winsect == g.fatbase + EntryStart(g.fsType, e) / SS && win[..] == View()[winsect]
      ensures EntryStart(g.fsType, e) % SS + EntryWidth(g.fsType) <= SS
      ensures fat[e] == EntryIn(g.fsType, win[..], EntryStart(g.fsType, e) % SS)
    {
      hide Volume.Valid, Volume.View;
      Contents();
      EntryInSector(g.fsType, View(), g.fatbase, g.fsize, e);
    }
  }

  ghost function EntryOf(g: Geometry, tab: seq<byte>, c: nat): u32
    requires g.Sound() && c < g.nFatEnt && |tab| == g.fsize * SS
  {
    Entry(g.fsType, tab, c)
  }

  /** What the users of a volume see of it. */
  datatype Snapshot = Snapshot(view: seq<Sector>, fat: seq<int>, faults: nat, mirrored: bool, window: int, freeClst: int)

  /** Nothing has changed but, possibly, the second FAT; and unless a transfer has failed the second
      FAT is as good as before. */
  ghost predicate KeepsData(g: Geometry, s: Snapshot, s': Snapshot) {
    && SameView(g, s.view, s'.view) && s'.fat == s.fat && s'.freeClst == s.freeClst
    && (s.mirrored && s.faults == s'.faults ==> s'.mirrored)
  }

  /** The window has stayed, or shows nothing, or shows a FAT sector. */
  ghost predicate WindowIn(g: Geometry, w: int, w': int) {
    w' == w || w' == NO_SECTOR || (0 <= w' && g.InFat(w'))
  }

  /** Both. */
  ghost predicate Keeps(g: Geometry, s: Snapshot, s': Snapshot) {
    KeepsData(g, s, s') && WindowIn(g, s.window, s'.window)
  }

  /** Nothing has changed but the FATs; and unless a transfer has failed the second FAT is as good
      as before. */
  ghost predicate Updates(g: Geometry, s: Snapshot, s': Snapshot) {
    && SameOutsideFats(g, s.view, s'.view)
    && (s.mirrored && s.faults == s'.faults ==> s'.mirrored)
    && WindowIn(g, s.window, s'.window)
  }

  /** Nothing has changed but the given sectors, and those lie past the FATs. */
  ghost predicate WritesOnly(g: Geometry, s: Snapshot, s': Snapshot, sect: nat, count: nat) {
    && g.database <= sect
    && |s'.view| == |s.view| && s'.fat == s.fat && s'.freeClst == s.freeClst
    && s'.mirrored == s.mirrored && s'.window == s.window
    && forall k :: 0 <= k < |s.view| && !(sect <= k < sect + count) ==> s'.view[k] == s.view[k]
  }

  lemma SameUpdates(g: Geometry, s: Snapshot)
    ensures Keeps(g, s, s) && Updates(g, s, s)
  {
  }

  lemma KeepsUpdates(g: Geometry, s: Snapshot, s': Snapshot)
    requires Keeps(g, s, s')
    ensures Updates(g, s, s')
  {
  }

  lemma UpdatesTrans(g: Geometry, s: Snapshot, s': Snapshot, s'': Snapshot)
    requires Updates(g, s, s') && Updates(g, s', s'') && s.faults <= s'.faults <= s''.faults
    ensures Updates(g, s, s'')
  {
  }

  lemma Recounted(g: Geometry, s: Snapshot, s': Snapshot, s'': Snapshot)
    requires Updates(g, s, s') && s'' == s'.(freeClst := s''.freeClst)
    ensures Updates(g, s, s'')
  {
  }

  /** Two views that agree everywhere but in the second FAT. */
  ghost predicate SameView(g: Geometry, v: seq<Sector>, v': seq<Sector>) {
    |v'| == |v| && forall s :: 0 <= s < |v| && !g.InMirror(s) ==> v'[s] == v[s]
  }

  /** Two views that agree everywhere but in the FATs. */
  ghost predicate SameOutsideFats(g: Geometry, v: seq<Sector>, v': seq<Sector>) {
    |v'| == |v| && forall s :: 0 <= s < |v| && !g.InFat(s) && !g.InMirror(s) ==> v'[s] == v[s]
  }

  lemma SameTable(g: Geometry, v: seq<Sector>, v': seq<Sector>)
    requires |v'| == |v| && g.fatbase + g.fsize <= |v|
    requires forall s :: g.fatbase <= s < g.fatbase + g.fsize ==> v'[s] == v[s]
    ensures Flat(v', g.fatbase, g.fsize) == Flat(v, g.fatbase, g.fsize)
  {
    FlatSame(v, g.fatbase, v', g.fatbase, g.fsize);
  }
}
