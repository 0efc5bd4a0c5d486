/**
 Mounting: `check_fs` and `find_volume` look for a FAT volume on the drive and compute its
 geometry from the BIOS parameter block.
 */
module Mount {
  import opened Bits
  import opened Layout
  import opened FreeSpace

  const MIN_FAT16: nat := 4086
  const MIN_FAT32: nat := 65526
  const MBR_TABLE: nat := 446
  const SZ_PTE: nat := 16

  /** `check_fs`, on the sector loaded: 0: FAT boot sector, 1: boot sector, 2: neither. */
  function CheckFs(s: Sector): nat {
    if LdWord(s, BS_55AA) != 0xAA55 then 2
    else if LdDword(s, 54) % 0x100_0000 == 0x544146 then 0      // BS_FilSysType: "FAT"
    else if LdDword(s, 82) % 0x100_0000 == 0x544146 then 0      // BS_FilSysType32
    else 1
  }

  /** The start of partition `i` by the partition table, 0: no partition. */
  function Partition(s: Sector, i: nat): nat
    requires i < 4
  {
    if s[MBR_TABLE + SZ_PTE * i + 4] == 0 then 0 else LdDword(s, MBR_TABLE + SZ_PTE * i + 8)
  }

  /** The fields of the BIOS parameter block that a mount reads. */
  datatype Bpb = Bpb(
    bytsPerSec: nat, secPerClus: nat, rsvdSecCnt: nat, numFats: nat, rootEntCnt: nat,
    totSec16: nat, totSec32: nat, fatSz16: nat, fatSz32: nat, rootClus: nat, fsInfo: nat)

  function ReadBpb(s: Sector): Bpb {
    Bpb(LdWord(s, 11), s[13] as nat, LdWord(s, 14), s[16] as nat, LdWord(s, 17),
        LdWord(s, 19), LdDword(s, 32), LdWord(s, 22), LdDword(s, 36), LdDword(s, 44), LdWord(s, 48))
  }

  /** The fields have the width of their places. */
  predicate Sized(b: Bpb) {
    && b.bytsPerSec < 0x1_0000 && b.secPerClus < 0x100 && b.rsvdSecCnt < 0x1_0000 && b.numFats < 0x100
    && b.rootEntCnt < 0x1_0000 && b.totSec16 < 0x1_0000 && b.totSec32 < DWORD_SIZE
    && b.fatSz16 < 0x1_0000 && b.fatSz32 < DWORD_SIZE && b.rootClus < DWORD_SIZE && b.fsInfo < 0x1_0000
  }

  lemma ReadIsSized(s: Sector)
    ensures Sized(ReadBpb(s))
  {
  }

  // ---- the geometry ----

  function FatSize(b: Bpb): nat { if b.fatSz16 != 0 then b.fatSz16 else b.fatSz32 }

  function Total(b: Bpb): nat { if b.totSec16 != 0 then b.totSec16 else b.totSec32 }

  /** Sectors before the data area, on a `DWORD`. */
  function SysSectors(b: Bpb): nat {
    (b.rsvdSecCnt + FatSize(b) * b.numFats % DWORD_SIZE + b.rootEntCnt / 16) % DWORD_SIZE
  }

  function Clusters(b: Bpb): nat {
    if b.secPerClus == 0 || Total(b) < SysSectors(b) then 0 else (Total(b) - SysSectors(b)) / b.secPerClus
  }

  function SubType(n: nat): FatType {
    if n >= MIN_FAT32 then Fat32 else if n >= MIN_FAT16 then Fat16 else Fat12
  }

  /** The bytes a FAT of `n` entries needs, on a `DWORD`. */
  function NeededBytes(t: FatType, n: nat): nat {
    match t
    case Fat12 => n * 3 / 2 + n % 2
    case Fat16 => n * 2
    case Fat32 => n * 4 % DWORD_SIZE
  }

  /** What `find_volume` accepts. */
  ghost predicate Acceptable(b: Bpb) {
    && b.bytsPerSec == SS
    && (b.numFats == 1 || b.numFats == 2)
    && b.secPerClus != 0 && And(b.secPerClus, b.secPerClus - 1) == 0
    && b.rootEntCnt % 16 == 0 && b.rsvdSecCnt != 0
    && Total(b) >= SysSectors(b) && Clusters(b) != 0
    && (SubType(Clusters(b)) == Fat32 <==> b.rootEntCnt == 0)
    && FatSize(b) >= (NeededBytes(SubType(Clusters(b)), Clusters(b) + 2) + (SS - 1)) % DWORD_SIZE / SS
  }

  function GeometryOf(b: Bpb, bsect: nat): Geometry {
    var t := SubType(Clusters(b));
    Geometry(t, b.secPerClus, b.numFats, b.rootEntCnt, Clusters(b) + 2, FatSize(b), bsect,
      (bsect + b.rsvdSecCnt) % DWORD_SIZE,
      if t == Fat32 then b.rootClus
        else ((bsect + b.rsvdSecCnt) % DWORD_SIZE + FatSize(b) * b.numFats % DWORD_SIZE) % DWORD_SIZE,
      (bsect + SysSectors(b)) % DWORD_SIZE)
  }

  /** The sector numbers of the volume do not wrap around. */
  predicate NoWrap(b: Bpb, bsect: nat) {
    && FatSize(b) * b.numFats < DWORD_SIZE
    && b.rsvdSecCnt + FatSize(b) * b.numFats + b.rootEntCnt / 16 < DWORD_SIZE
    && bsect + Total(b) < DWORD_SIZE
  }

  /** How often the size in bytes of a FAT32 for `n` clusters, rounded up to sectors, wraps around. */
  function Laps(n: nat): nat { (n * 4 + 519) / DWORD_SIZE }

  /** The second half of `find_volume`: reads the BPB in `s`, the boot sector at `bsect`. */
  method ParseBpb(s: Sector, bsect: nat) returns (ok: bool, g: Geometry)
    requires bsect < DWORD_SIZE
    ensures ok <==> Acceptable(ReadBpb(s))
    ensures ok ==> g == GeometryOf(ReadBpb(s), bsect)
  {
    hide Acceptable, GeometryOf, FatSize, Total, SysSectors, Clusters, SubType, NeededBytes, LdWord, LdDword, ReadBpb;
    hide And, Sized;
    ReadIsSized(s);
    var b := ReadBpb(s);
    SumsAre(b);
    AcceptableParts(b);
    ok, g := false, Geometry(Fat12, 0, 0, 0, 0, 0, 0, 0, 0, 0);
    if b.bytsPerSec != SS {
      return;
    }
    var fasize := b.fatSz16;
    if fasize == 0 {
      fasize := b.fatSz32;
    }
    var fsize := fasize;
    if b.numFats != 1 && b.numFats != 2 {
      return;
    }
    fasize := fasize * b.numFats % DWORD_SIZE;
    if b.secPerClus == 0 || And(b.secPerClus, b.secPerClus - 1) != 0 {
      return;
    }
    if b.rootEntCnt % 16 != 0 {
      return;
    }
    var tsect := b.totSec16;
    if tsect == 0 {
      tsect := b.totSec32;
    }
    var nrsv := b.rsvdSecCnt;
    if nrsv == 0 {
      return;
    }
    var sysect := (nrsv + fasize + b.rootEntCnt / 16) % DWORD_SIZE;
    if tsect < sysect {
      return;
    }
    var nclst := (tsect - sysect) / b.secPerClus;
    if nclst == 0 {
      return;
    }
    assert nclst == Clusters(b);
    var fmt := Fat12;
    if nclst >= MIN_FAT16 {
      fmt := Fat16;
    }
    if nclst >= MIN_FAT32 {
      fmt := Fat32;
    }
    SubTypeIs(nclst);
    var nFatent := nclst + 2;
    var fatbase := (bsect + nrsv) % DWORD_SIZE;
    var database := (bsect + sysect) % DWORD_SIZE;
    var dirbase, szbfat;
    if fmt == Fat32 {
      if b.rootEntCnt != 0 {
        return;
      }
      dirbase, szbfat := b.rootClus, nFatent * 4 % DWORD_SIZE;
    } else {
      if b.rootEntCnt == 0 {
        return;
      }
      dirbase := (fatbase + fasize) % DWORD_SIZE;
      szbfat := if fmt == Fat16 then nFatent * 2 else nFatent * 3 / 2 + nFatent % 2;
    }
    NeededIs(fmt, nFatent);
    if fsize < (szbfat + (SS - 1)) % DWORD_SIZE / SS {
      return;
    }
    ok := true;
    g := Geometry(fmt, b.secPerClus, b.numFats, b.rootEntCnt, nFatent, fsize, bsect, fatbase, dirbase, database);
    GeometryParts(b, bsect);
  }

  lemma SumsAre(b: Bpb)
    requires Sized(b)
    ensures FatSize(b) == if b.fatSz16 == 0 then b.fatSz32 else b.fatSz16
    ensures Total(b) == if b.totSec16 == 0 then b.totSec32 else b.totSec16
    ensures SysSectors(b) == (b.rsvdSecCnt + FatSize(b) * b.numFats % DWORD_SIZE + b.rootEntCnt / 16) % DWORD_SIZE
    ensures b.secPerClus != 0 && Total(b) >= SysSectors(b) ==> Clusters(b) == (Total(b) - SysSectors(b)) / b.secPerClus
  {
  }

  lemma AcceptableParts(b: Bpb)
    ensures Acceptable(b) <==>
      && b.bytsPerSec == SS
      && (b.numFats == 1 || b.numFats == 2)
      && b.secPerClus != 0 && And(b.secPerClus, b.secPerClus - 1) == 0
      && b.rootEntCnt % 16 == 0 && b.rsvdSecCnt != 0
      && Total(b) >= SysSectors(b) && Clusters(b) != 0
      && (SubType(Clusters(b)) == Fat32 <==> b.rootEntCnt == 0)
      && FatSize(b) >= (NeededBytes(SubType(Clusters(b)), Clusters(b) + 2) + (SS - 1)) % DWORD_SIZE / SS
  {
    hide And, Total, SysSectors, Clusters, SubType, FatSize, NeededBytes;
  }

  lemma SubTypeIs(n: nat)
    ensures SubType(n) == if n >= MIN_FAT32 then Fat32 else if n >= MIN_FAT16 then Fat16 else Fat12
    ensures MIN_FAT16 < MIN_FAT32
  {
  }

  lemma NeededIs(t: FatType, n: nat)
    ensures NeededBytes(t, n) ==
      if t == Fat32 then n * 4 % DWORD_SIZE else if t == Fat16 then n * 2 else n * 3 / 2 + n % 2
  {
  }

  lemma GeometryParts(b: Bpb, bsect: nat)
    ensures var t := SubType(Clusters(b));
      GeometryOf(b, bsect) == Geometry(t, b.secPerClus, b.numFats, b.rootEntCnt, Clusters(b) + 2, FatSize(b), bsect,
        (bsect + b.rsvdSecCnt) % DWORD_SIZE,
        if t == Fat32 then b.rootClus
          else ((bsect + b.rsvdSecCnt) % DWORD_SIZE + FatSize(b) * b.numFats % DWORD_SIZE) % DWORD_SIZE,
        (bsect + SysSectors(b)) % DWORD_SIZE)
  {
    hide Clusters, SysSectors, FatSize, SubType;
  }

  /** `n & (n - 1)` is 0 exactly for powers of two. */
  lemma {:induction false} OneBitSet(n: nat)
    requires n >= 1 && And(n, n - 1) == 0
    ensures IsPow2(n)
  {
    if n == 1 {
      assert n == Pow2(0);
    } else if n % 2 == 0 {
      assert (n - 1) / 2 == n / 2 - 1 && (n - 1) % 2 == 1;
      OneBitSet(n / 2);
      var k: nat :| n / 2 == Pow2(k);
      assert n == Pow2(k + 1);
    } else {
      assert (n - 1) / 2 == n / 2 && n / 2 >= 1;
      AndSelf(n / 2);
    }
  }

  lemma {:induction false} AndSelf(n: nat)
    ensures And(n, n) == n
  {
    if n > 0 {
      AndSelf(n / 2);
    }
  }

  /** An accepted volume is laid out inside its sectors: reserved area, FATs, root directory and
      data area follow one another, and every cluster lies in the data area. Every FAT entry lies in
      the first FAT, if the size of the FAT does not wrap around; and cluster numbers fit an entry
      exactly if there are not too many. */
  lemma MountedFits(b: Bpb, bsect: nat)
    requires Sized(b) && Acceptable(b) && NoWrap(b, bsect) && bsect + Total(b) < INVALID_SECTOR
    ensures var g := GeometryOf(b, bsect);
      && g.fatbase == bsect + b.rsvdSecCnt && g.database == g.fatbase + FatSectors(g) + b.rootEntCnt / 16
      && (g.fsType != Fat32 ==> g.dirbase == g.fatbase + FatSectors(g) && g.dirbase + g.nRootdir / 16 == g.database)
      && (g.fsType == Fat32 ==> g.dirbase == b.rootClus) && FatSectors(g) == FatSize(b) * b.numFats
      && (g.nFatent - 2) * b.secPerClus <= bsect + Total(b) - g.database < (g.nFatent - 1) * b.secPerClus
      && (Placed(g, bsect + Total(b)) <==> EntryEnd(g.fsType, g.nFatent - 1) <= g.fsize * SS)
      && (Laps(Clusters(b)) == 0 ==> Placed(g, bsect + Total(b)))
      && (Fits(g, bsect + Total(b)) <==> Clusters(b) + 2 <= EOC)
  {
    hide *;
    var g := GeometryOf(b, bsect);
    var n := Clusters(b);
    PlainGeometry(b, bsect);
    AcceptedFacts(b);
    SizedFacts(b);
    OneBitSet(b.secPerClus);
    PowerAtMost(b.secPerClus);
    EntriesFit(g.fsType, n + 2, FatSize(b));
    LapsIs(n);
    EntryLimit(g.fsType, n + 2);
    FatSectorsOf(g, FatSize(b), b.numFats);
    PlacedIf(g, bsect + Total(b), n);
    FitsIf(g, bsect + Total(b));
  }

  lemma SizedFacts(b: Bpb)
    requires Sized(b)
    ensures b.secPerClus < 256
  {
  }

  lemma LapsIs(n: nat)
    ensures Laps(n) == (n * 4 + 519) / 0x1_0000_0000
    ensures Laps(n) == 0 <==> n * 4 + 519 < 0x1_0000_0000
  {
  }

  lemma EntryLimit(t: FatType, n: nat)
    requires (t == Fat12 ==> n <= 4087) && (t == Fat16 ==> n <= 65527)
    ensures n <= MaxEntries(t) <==> n <= EOC
    ensures n <= EOC ==> n * 4 + 511 < 0x1_0000_0000
    ensures t != Fat32 ==> n <= EOC
  {
  }

  lemma PlacedIf(g: Geometry, size: nat, n: nat)
    requires g.nFatent == n + 2 >= 3
    requires (g.nFats == 1 || g.nFats == 2) && IsPow2(g.csize) && g.csize <= 128
    requires g.volbase < g.fatbase && g.fatbase + FatSectors(g) <= g.database
    requires g.database + n * g.csize <= size < INVALID_SECTOR
    ensures Placed(g, size) <==> EntryEnd(g.fsType, g.nFatent - 1) <= g.fsize * SS
  {
    hide IsPow2, MaxEntries, EntryEnd, FatSectors;
  }

  lemma FitsIf(g: Geometry, size: nat)
    ensures Fits(g, size) <==> Placed(g, size) && g.nFatent <= MaxEntries(g.fsType)
  {
    hide Placed, MaxEntries;
  }

  /** An accepted volume that ends on the drive fits the drive, if it has not too many clusters. */
  lemma MountedOnDrive(b: Bpb, bsect: nat, size: nat)
    requires Sized(b) && Acceptable(b) && NoWrap(b, bsect) && bsect + Total(b) <= size < INVALID_SECTOR
    ensures Fits(GeometryOf(b, bsect), size) <==> Clusters(b) + 2 <= EOC
    ensures Laps(Clusters(b)) == 0 ==> Placed(GeometryOf(b, bsect), size)
  {
    hide *;
    var g := GeometryOf(b, bsect);
    MountedFits(b, bsect);
    FitsIf(g, size);
    FitsIf(g, bsect + Total(b));
    if Placed(g, bsect + Total(b)) {
      PlacedMore(g, bsect + Total(b), size);
    }
    if Placed(g, size) {
      PlacedEntries(g, size);
    }
  }

  /** On an accepted volume different clusters have no sector in common, and none lies outside the
      data area. */
  lemma ClustersApart(b: Bpb, bsect: nat, c: nat, i: nat, d: nat, j: nat)
    requires Sized(b) && Acceptable(b) && NoWrap(b, bsect)
    requires 2 <= c < Clusters(b) + 2 && 2 <= d < Clusters(b) + 2 && i < b.secPerClus && j < b.secPerClus
    ensures var g := GeometryOf(b, bsect);
      && g.database <= ClusterSector(g, c) + i < bsect + Total(b)
      && (ClusterSector(g, c) + i == ClusterSector(g, d) + j ==> c == d && i == j)
      && (g.nFatent < DWORD_SIZE - 2 ==> Clust2Sect(g, c) == ClusterSector(g, c))
  {
    hide *;
    PlainGeometry(b, bsect);
    DwordSize();
    var g := GeometryOf(b, bsect);
    SectorOf(g, c);
    SectorOf(g, d);
    InRun(b.secPerClus, c - 2, i, Clusters(b));
    SameRun(b.secPerClus, c - 2, i, d - 2, j);
  }

  lemma SectorOf(g: Geometry, c: nat)
    requires 2 <= c < g.nFatent
    ensures ClusterSector(g, c) == g.csize * (c - 2) + g.database
    ensures g.nFatent < DWORD_SIZE - 2 ==> Clust2Sect(g, c) == ClusterSector(g, c)
  {
  }

  lemma InRun(a: nat, q: nat, i: nat, n: nat)
    requires i < a && q < n
    ensures a * q + i < n * a
  {
    MulDistributes(a, q, 1);
    MulMonotonic(a, q + 1, n);
  }

  lemma SameRun(a: nat, q: nat, i: nat, r: nat, j: nat)
    requires i < a && j < a
    ensures a * q + i == a * r + j ==> q == r && i == j
  {
    if a * q + i == a * r + j {
      ModUnique(a * q + i, a, q, i);
      ModUnique(a * q + i, a, r, j);
    }
  }

  lemma PlacedEntries(g: Geometry, size: nat)
    requires Placed(g, size)
    ensures g.nFatent >= 3 && EntryEnd(g.fsType, g.nFatent - 1) <= g.fsize * SS
  {
    hide EntryEnd, IsPow2, FatSectors, ClusterSector;
  }

  lemma PlacedMore(g: Geometry, size: nat, more: nat)
    requires Placed(g, size) && size <= more < INVALID_SECTOR
    ensures Placed(g, more)
  {
    hide EntryEnd, IsPow2, FatSectors, ClusterSector;
  }

  lemma AcceptedFacts(b: Bpb)
    requires Acceptable(b)
    ensures (b.numFats == 1 || b.numFats == 2) && b.rsvdSecCnt >= 1
    ensures b.secPerClus >= 1 && And(b.secPerClus, b.secPerClus - 1) == 0
    ensures Clusters(b) >= 1 && (SubType(Clusters(b)) == Fat32 <==> b.rootEntCnt == 0) && b.rootEntCnt % 16 == 0
    ensures FatSize(b) >= (NeededBytes(SubType(Clusters(b)), Clusters(b) + 2) + (SS - 1)) % DWORD_SIZE / SS
    ensures SubType(Clusters(b)) == Fat12 ==> Clusters(b) + 2 <= 4087
    ensures SubType(Clusters(b)) == Fat16 ==> Clusters(b) + 2 <= 65527
  {
    hide And, Clusters, NeededBytes, FatSize;
  }

  /** Without wrapping around the numbers are plain sums. */
  lemma PlainGeometry(b: Bpb, bsect: nat)
    requires Sized(b) && Acceptable(b) && NoWrap(b, bsect)
    ensures var g := GeometryOf(b, bsect); var f := FatSize(b) * b.numFats;
      && g.fsType == SubType(Clusters(b)) && g.csize == b.secPerClus && g.nFats == b.numFats
      && g.nRootdir == b.rootEntCnt
      && g.nFatent == Clusters(b) + 2 && g.fsize == FatSize(b) && g.volbase == bsect
      && g.fatbase == bsect + b.rsvdSecCnt && FatSectors(g) == f
      && g.database == g.fatbase + f + b.rootEntCnt / 16
      && (g.fsType != Fat32 ==> g.dirbase == g.fatbase + f)
      && (g.fsType == Fat32 ==> g.dirbase == b.rootClus)
      && Clusters(b) * b.secPerClus <= bsect + Total(b) - g.database < (Clusters(b) + 1) * b.secPerClus
  {
    var f := FatSize(b) * b.numFats;
    SysPlain(b);
    ClustersIs(b);
    GeometryIs(b, bsect);
    AcceptedFacts(b);
    NoWrapFacts(b, bsect);
    FatSectorsOf(GeometryOf(b, bsect), FatSize(b), b.numFats);
    hide *;
    ClustersFit(Total(b) - SysSectors(b), b.secPerClus);
    Small(bsect + b.rsvdSecCnt);
    Small(bsect + b.rsvdSecCnt + f);
    Small(bsect + SysSectors(b));
    Small(f);
  }

  lemma Small(x: nat)
    ensures x < 0x1_0000_0000 ==> x % 0x1_0000_0000 == x
  {
  }

  lemma SysPlain(b: Bpb)
    requires FatSize(b) * b.numFats < DWORD_SIZE
    requires b.rsvdSecCnt + FatSize(b) * b.numFats + b.rootEntCnt / 16 < DWORD_SIZE
    ensures SysSectors(b) == b.rsvdSecCnt + FatSize(b) * b.numFats + b.rootEntCnt / 16
  {
    hide FatSize;
    Small(FatSize(b) * b.numFats);
    Small(b.rsvdSecCnt + FatSize(b) * b.numFats + b.rootEntCnt / 16);
  }

  lemma ClustersIs(b: Bpb)
    requires Acceptable(b)
    ensures b.secPerClus >= 1 && Total(b) >= SysSectors(b) && Clusters(b) == (Total(b) - SysSectors(b)) / b.secPerClus
  {
    hide And, SysSectors, Total, NeededBytes;
  }

  lemma NoWrapFacts(b: Bpb, bsect: nat)
    requires NoWrap(b, bsect)
    ensures FatSize(b) * b.numFats < 0x1_0000_0000 && bsect + Total(b) < 0x1_0000_0000
    ensures b.rsvdSecCnt + FatSize(b) * b.numFats + b.rootEntCnt / 16 < 0x1_0000_0000
  {
  }

  lemma GeometryIs(b: Bpb, bsect: nat)
    ensures var g := GeometryOf(b, bsect); var f := FatSize(b) * b.numFats % 0x1_0000_0000;
      && g.fsType == SubType(Clusters(b)) && g.csize == b.secPerClus && g.nFats == b.numFats
      && g.nRootdir == b.rootEntCnt
      && g.nFatent == Clusters(b) + 2 && g.fsize == FatSize(b) && g.volbase == bsect
      && g.fatbase == (bsect + b.rsvdSecCnt) % 0x1_0000_0000
      && g.database == (bsect + SysSectors(b)) % 0x1_0000_0000
      && (g.fsType != Fat32 ==> g.dirbase == (g.fatbase + f) % 0x1_0000_0000)
  {
    hide Clusters, SysSectors, FatSize, SubType;
  }

  lemma FatSectorsOf(g: Geometry, fsize: nat, n: nat)
    requires g.fsize == fsize && g.nFats == n && (n == 1 || n == 2)
    ensures FatSectors(g) == fsize * n
  {
  }

  lemma PowerAtMost(n: nat)
    requires IsPow2(n) && n < 256
    ensures n <= 128
  {
    var k: nat :| n == Pow2(k);
    if k >= 8 {
      assert Pow2(8) == 256;
      Pow2Sum(8, k - 8);
      MulMonotonic(256, 1, Pow2(k - 8));
    } else {
      assert Pow2(7) == 128;
      Pow2Sum(k, 7 - k);
      MulMonotonic(Pow2(k), 1, Pow2(7 - k));
    }
  }

  lemma ClustersFit(d: int, c: nat)
    requires d >= 0 && c >= 1
    ensures (d / c) * c <= d < (d / c + 1) * c
  {
    assert d == (d / c) * c + d % c;
  }

  lemma EntriesFit(t: FatType, n: nat, fsize: nat)
    requires 3 <= n && (t == Fat12 ==> n <= 4087) && (t == Fat16 ==> n <= 65527)
    requires fsize >= (NeededBytes(t, n) + (SS - 1)) % DWORD_SIZE / SS
    ensures n * 4 + 511 < 0x1_0000_0000 ==> EntryEnd(t, n - 1) <= fsize * SS
  {
    if n * 4 + 511 < 0x1_0000_0000 {
      var s := NeededBytes(t, n);
      LastEntry(t, n);
      hide NeededBytes, EntryEnd;
      Small(s + 511);
      RoundedUp(s, fsize);
    }
  }

  lemma LastEntry(t: FatType, n: nat)
    requires 3 <= n && (t == Fat12 ==> n <= 4087) && (t == Fat16 ==> n <= 65527) && n * 4 + 511 < 0x1_0000_0000
    ensures EntryEnd(t, n - 1) <= NeededBytes(t, n) < DWORD_SIZE - (SS - 1)
  {
  }

  lemma RoundedUp(s: nat, fsize: nat)
    requires s + (SS - 1) < DWORD_SIZE && fsize >= (s + (SS - 1)) / SS
    ensures s <= fsize * SS
  {
  }

  // ---- what a mount looks for, by the bytes of the drive ----

  predicate BootSector(s: Sector) { s[510] == 0x55 && s[511] == 0xAA }

  /** A boot sector with `FAT` where FAT12 and FAT16, or FAT32, have the name of the file system. */
  predicate FatSector(s: Sector) {
    && BootSector(s)
    && ((s[54] == 0x46 && s[55] == 0x41 && s[56] == 0x54) || (s[82] == 0x46 && s[83] == 0x41 && s[84] == 0x54))
  }

  /** The start in entry `i` of the partition table, 0: the entry is empty. */
  function EntryStart(s: Sector, i: nat): int
    requires i < 4
  {
    var p := 446 + 16 * i;
    var b0: int, b1: int, b2: int, b3: int := s[p + 8], s[p + 9], s[p + 10], s[p + 11];
    if s[p + 4] == 0 then 0 else b0 + 0x100 * b1 + 0x1_0000 * b2 + 0x100_0000 * b3
  }

  /** Entry `i` of the partition table leads to a FAT volume. */
  predicate LeadsToFat(disk: Image, i: nat)
    requires disk != [] && i < 4
  {
    0 < EntryStart(disk[0], i) < |disk| && FatSector(disk[EntryStart(disk[0], i)])
  }

  /** The volume that is taken starts at sector `b`: sector 0 itself, or the start in the first entry of
      its partition table that leads to a FAT volume, whatever is in the entries before it. */
  ghost predicate StartsAt(disk: Image, b: nat) {
    && disk != []
    && if FatSector(disk[0]) then b == 0
       else
         && BootSector(disk[0])
         && exists i: nat :: i < 4 && LeadsToFat(disk, i) && b == EntryStart(disk[0], i)
              && forall j: nat :: j < i ==> !LeadsToFat(disk, j)
  }

  /** Sector 0, or the sector of the last entry of its partition table, is not on the drive. */
  predicate Unreadable(disk: Image) {
    disk == [] || (BootSector(disk[0]) && EntryStart(disk[0], 3) >= |disk|)
  }

  lemma CheckFsIs(s: Sector)
    ensures CheckFs(s) == if !BootSector(s) then 2 else if FatSector(s) then 0 else 1
  {
    SignatureIs(s);
    FatNameIs(s, 54);
    FatNameIs(s, 82);
    hide LdWord, LdDword;
  }

  lemma SignatureIs(s: Sector)
    ensures LdWord(s, 510) == 0xAA55 <==> s[510] == 0x55 && s[511] == 0xAA
  {
  }

  lemma FatNameIs(s: Sector, i: nat)
    requires i + 3 < SS
    ensures LdDword(s, i) % 0x100_0000 == 0x544146 <==> s[i] == 0x46 && s[i + 1] == 0x41 && s[i + 2] == 0x54
  {
    var b0: int, b1: int, b2: int, b3: int := s[i], s[i + 1], s[i + 2], s[i + 3];
    ModUnique(LdDword(s, i), 0x100_0000, b3, b0 + 0x100 * b1 + 0x1_0000 * b2);
  }

  lemma PartitionIs(s: Sector, i: nat)
    requires i < 4
    ensures Partition(s, i) == EntryStart(s, i)
  {
  }

  // ---- find_volume ----

  datatype Found = Mounted(g: Geometry, fsiOff: bool, free: nat, last: nat) | NO_FILESYSTEM | DISK_ERR

  /** `check_fs` of sector `sect`: 3 if it is not on the drive. */
  function CheckAt(disk: Image, sect: nat): nat {
    if sect < |disk| then CheckFs(disk[sect]) else 3
  }

  /** The first partition from `i` on that is a FAT volume, or cannot be read. */
  ghost function FirstPartition(disk: Image, mbr: Sector, i: nat): (r: (nat, nat))
    requires i < 4
    decreases 4 - i
  {
    var b := Partition(mbr, i);
    var fmt := if b != 0 then CheckAt(disk, b) else 2;
    if fmt != 0 && i < 3 then FirstPartition(disk, mbr, i + 1) else (b, fmt)
  }

  /** Where the volume starts, and what is there. */
  ghost function VolumeAt(disk: Image): (nat, nat) {
    if CheckAt(disk, 0) == 1 then FirstPartition(disk, disk[0], 0) else (0, CheckAt(disk, 0))
  }

  /** The outcome of a mount. */
  ghost predicate Mounts(disk: Image, r: Found) {
    var (b, fmt) := VolumeAt(disk);
    if fmt == 3 then r == DISK_ERR
    else if fmt != 0 || !Acceptable(ReadBpb(disk[b])) then r == NO_FILESYSTEM
    else if SubType(Clusters(ReadBpb(disk[b]))) == Fat32 && ReadBpb(disk[b]).fsInfo == 1 && b + 1 < |disk| then
      r == Mounted(GeometryOf(ReadBpb(disk[b]), b), false, LoadFsInfo(disk[b + 1]).0, LoadFsInfo(disk[b + 1]).1)
    else r == Mounted(GeometryOf(ReadBpb(disk[b]), b), true, 0xFFFF_FFFF, 0xFFFF_FFFF)
  }

  /** The two counters of a mount of the volume at sector `b` come from the sector after its boot sector, if
      a FAT32 volume names that one at bytes 48 and 49 and it is on the drive and has the signatures; else
      there are none. */
  ghost predicate InfoTaken(disk: Image, b: nat, r: Found)
    requires b < |disk| && r.Mounted?
  {
    && (!r.fsiOff <==> r.g.fsType == Fat32 && disk[b][48] == 1 && disk[b][49] == 0 && b + 1 < |disk|)
    && if !r.fsiOff && Signed(disk[b + 1]) then
         HoldsDword(disk[b + 1], 488, r.free) && HoldsDword(disk[b + 1], 492, r.last)
       else r.free == r.last == 0xFFFF_FFFF
  }

  /** `find_volume`, for an unpartitioned drive or the first FAT partition. */
  method FindVolume(disk: Image) returns (r: Found)
    requires |disk| < DWORD_SIZE
    ensures forall b: nat :: StartsAt(disk, b) ==> b < |disk| && (r.Mounted? <==> Acceptable(ReadBpb(disk[b])))
    ensures forall b: nat :: StartsAt(disk, b) ==>
      if r.Mounted? then b < |disk| && r.g == GeometryOf(ReadBpb(disk[b]), b) else r == NO_FILESYSTEM
    ensures (forall b: nat :: !StartsAt(disk, b)) ==> r == if Unreadable(disk) then DISK_ERR else NO_FILESYSTEM
    ensures forall b: nat :: StartsAt(disk, b) && r.Mounted? ==> b < |disk| && InfoTaken(disk, b, r)
    ensures Mounts(disk, r)
  {
    VolumeIs(disk);
    hide InfoTaken, StartsAt, Unreadable, CheckFs, Partition, Acceptable, ReadBpb, GeometryOf, LoadFsInfo;
    var bsect: nat := 0;
    var fmt := CheckAt(disk, 0);
    if fmt == 1 {
      var mbr := disk[0];
      var i: nat := 0;
      var going := true;
      while going
        invariant i < 4
        invariant if going then FirstPartition(disk, mbr, 0) == FirstPartition(disk, mbr, i)
          else FirstPartition(disk, mbr, 0) == (bsect, fmt)
        decreases going, 4 - i
      {
        bsect := Partition(mbr, i);
        fmt := if bsect != 0 then CheckAt(disk, bsect) else 2;
        going := fmt != 0 && i < 3;
        if going {
          i := i + 1;
        }
      }
    }
    if fmt == 3 {
      return DISK_ERR;
    }
    if fmt != 0 {
      return NO_FILESYSTEM;
    }
    FoundIsOnDisk(disk);
    var s := disk[bsect];
    var ok, g := ParseBpb(s, bsect);
    if !ok {
      return NO_FILESYSTEM;
    }
    TypeOf(ReadBpb(s), bsect);
    if g.fsType == Fat32 && ReadBpb(s).fsInfo == 1 && bsect + 1 < |disk| {
      var info := LoadFsInfo(disk[bsect + 1]);
      r := Mounted(g, false, info.0, info.1);
    } else {
      r := Mounted(g, true, 0xFFFF_FFFF, 0xFFFF_FFFF);
    }
    InfoIsTaken(disk, bsect, r);
  }

  lemma InfoIsTaken(disk: Image, b: nat, r: Found)
    requires b < |disk| && r.Mounted?
    requires if r.g.fsType == Fat32 && ReadBpb(disk[b]).fsInfo == 1 && b + 1 < |disk| then
        r == Mounted(r.g, false, LoadFsInfo(disk[b + 1]).0, LoadFsInfo(disk[b + 1]).1)
      else r == Mounted(r.g, true, 0xFFFF_FFFF, 0xFFFF_FFFF)
    ensures InfoTaken(disk, b, r)
  {
    BpbBytes(disk[b]);
    WordIsOne(disk[b], 48);
    if b + 1 < |disk| {
      LoadBytes(disk[b + 1]);
    }
    hide LoadFsInfo, ReadBpb, Word, Signed, HoldsDword;
  }

  lemma WordIsOne(s: Sector, i: nat)
    requires i + 2 <= 512
    ensures Word(s, i) == 1 <==> s[i] == 1 && s[i + 1] == 0
  {
  }

  lemma TypeOf(b: Bpb, bsect: nat)
    ensures GeometryOf(b, bsect).fsType == SubType(Clusters(b))
  {
  }

  /** A volume that was found starts on the drive. */
  lemma FoundIsOnDisk(disk: Image)
    ensures VolumeAt(disk).1 == 0 ==> VolumeAt(disk).0 < |disk|
  {
    if CheckAt(disk, 0) == 1 {
      PartitionOnDisk(disk, disk[0], 0);
    }
  }

  lemma {:induction false} PartitionOnDisk(disk: Image, mbr: Sector, i: nat)
    requires i < 4
    ensures FirstPartition(disk, mbr, i).1 == 0 ==> FirstPartition(disk, mbr, i).0 < |disk|
    decreases 4 - i
  {
    if i < 3 {
      PartitionOnDisk(disk, mbr, i + 1);
    }
  }

  /** The search through the partition table, from entry `i` on, ends at the first one that leads to a
      FAT volume, or at the last entry. */
  lemma {:induction false} PartitionsSearched(disk: Image, i: nat)
    requires disk != [] && i < 4 && forall j: nat :: j < i ==> !LeadsToFat(disk, j)
    ensures var r := FirstPartition(disk, disk[0], i);
      if r.1 == 0 then
        exists k: nat :: k < 4 && LeadsToFat(disk, k) && r.0 == EntryStart(disk[0], k)
          && forall j: nat :: j < k ==> !LeadsToFat(disk, j)
      else
        && (forall j: nat :: j < 4 ==> !LeadsToFat(disk, j))
        && (r.1 == 3 <==> EntryStart(disk[0], 3) >= |disk|)
    decreases 4 - i
  {
    EntryChecked(disk, i);
    hide LeadsToFat, EntryStart, Partition, CheckAt;
    if !LeadsToFat(disk, i) && i < 3 {
      PartitionsSearched(disk, i + 1);
    }
  }

  /** What the search finds out about entry `i`. */
  lemma EntryChecked(disk: Image, i: nat)
    requires disk != [] && i < 4
    ensures Partition(disk[0], i) == EntryStart(disk[0], i)
    ensures var b := Partition(disk[0], i); var fmt := if b != 0 then CheckAt(disk, b) else 2;
      (fmt == 0 <==> LeadsToFat(disk, i)) && (fmt == 3 <==> EntryStart(disk[0], i) >= |disk|)
  {
    PartitionIs(disk[0], i);
    hide Partition, CheckFs, FatSector, EntryStart;
    var b := Partition(disk[0], i);
    if b < |disk| {
      CheckFsIs(disk[b]);
    }
  }

  /** The volume is where the bytes of the drive say. */
  lemma VolumeIs(disk: Image)
    ensures VolumeAt(disk).1 == 0 ==> StartsAt(disk, VolumeAt(disk).0)
    ensures forall b: nat :: StartsAt(disk, b) ==> b < |disk| && VolumeAt(disk) == (b, 0)
    ensures VolumeAt(disk).1 == 3 <==> Unreadable(disk) && VolumeAt(disk).1 != 0
  {
    if disk != [] {
      CheckFsIs(disk[0]);
      PartitionsSearched(disk, 0);
      forall j: nat, k: nat | j < 4 && k < 4 && LeadsToFat(disk, j) && LeadsToFat(disk, k)
        ensures j < k || k < j || j == k
      {
      }
    }
    hide CheckFs, FatSector, BootSector, FirstPartition, EntryStart;
  }

  // ---- the parameter block, byte by byte ----

  function Word(s: Sector, i: nat): int
    requires i + 2 <= 512
  {
    s[i] as int + 0x100 * s[i + 1] as int
  }

  /** Where a mount reads each number. */
  lemma BpbBytes(s: Sector)
    ensures var b := ReadBpb(s);
      && b.bytsPerSec == Word(s, 11) && b.secPerClus == s[13] && b.rsvdSecCnt == Word(s, 14) && b.numFats == s[16]
      && b.rootEntCnt == Word(s, 17) && b.totSec16 == Word(s, 19) && b.fatSz16 == Word(s, 22)
      && b.totSec32 == Word(s, 32) + 0x1_0000 * Word(s, 34) && b.fatSz32 == Word(s, 36) + 0x1_0000 * Word(s, 38)
      && b.rootClus == Word(s, 44) + 0x1_0000 * Word(s, 46) && b.fsInfo == Word(s, 48)
  {
  }

  /** The bounds between the sub-types, in clusters. */
  lemma SubTypeBounds(n: nat)
    ensures SubType(n) == Fat12 <==> n <= 4085
    ensures SubType(n) == Fat32 <==> n > 65525
  {
  }
}
