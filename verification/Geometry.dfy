/** Where the parts of a mounted FAT volume lie. */
module Geometry {
  import opened Words
  import opened FatLayout

  /** Result codes of the filesystem functions. */
  datatype FResult = Ok | DiskErr | IntErr | Denied | NotEnoughCore | NoFilesystem

  /** The mount-time constants of the filesystem object. */
  datatype Geometry = Geometry(
    fsType: FatType,   // fs_type
    nFats: nat,        // n_fats
    nFatEnt: nat,      // n_fatent: number of entries, clusters are 2..nFatEnt-1
    csize: nat,        // sectors per cluster
    fsize: nat,        // sectors per FAT
    fatbase: nat,      // first sector of the FAT
    database: nat)     // first sector of cluster 2
  {
    /** What mounting establishes before any other function runs. */
    ghost predicate Sound() {
      && (nFats == 1 || nFats == 2)
      && 3 <= nFatEnt <= Eoc(fsType)
      && CsizeOk(this)
      && 0 < fatbase && 0 < fsize
      && FatsEnd() <= database
      && EntryStart(fsType, nFatEnt - 1) + EntryWidth(fsType) <= fsize * SS
    }

    /** First sector past the last FAT. */
    function FatsEnd(): nat {
      if nFats == 2 then fatbase + fsize + fsize else fatbase + fsize
    }

    /** First sector past the last cluster. */
    function End(): (e: nat)
      requires 2 <= nFatEnt
      ensures e >= database
    {
      database + csize * (nFatEnt - 2)
    }

    predicate InFat(s: nat) {
      fatbase <= s < fatbase + fsize
    }

    predicate InMirror(s: nat) {
      nFats == 2 && fatbase + fsize <= s < fatbase + fsize + fsize
    }

    predicate IsCluster(c: nat) {
      2 <= c < nFatEnt
    }

    /** First sector of cluster `c`. */
    function ClusterSector(c: nat): (s: nat)
      requires 2 <= c
      ensures s >= database
    {
      database + csize * (c - 2)
    }

    /** Sector `s` belongs to cluster `c`. */
    ghost predicate InCluster(s: nat, c: nat) {
      IsCluster(c) && ClusterSector(c) <= s < ClusterSector(c) + csize
    }
  }

  /** A cluster has a power of two of sectors, at most 128. */
  ghost predicate CsizeOk(g: Geometry) {
    g.csize in {1, 2, 4, 8, 16, 32, 64, 128}
  }
}
