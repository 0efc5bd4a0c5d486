/**
 The file system object: the drive, the one-sector window over it, and the
 FAT entries read and written through that window.
 */
module VolumeModel {
  import opened Bits
  import opened Layout
  import opened Chains
  import opened FreeSpace
  import opened FileImage
  import opened DirTable

  class Volume {
    const g: Geometry
    const win: array<Byte>          // the window buffer
    var winsect: nat                // the sector in the window
    var wflag: bool                 // the window is dirty
    var lastClust: nat              // last allocated cluster, a search hint
    var freeClust: nat              // number of free clusters, 0xFFFFFFFF: unknown
    var fsiDirty: bool              // b0 of fsi_flag
    const fsiOff: bool              // b7 of fsi_flag: there is no FSINFO sector
    var disk: Image                 // the sectors of the drive
    ghost var img: Image            // the disk as seen through the window
    ghost var fat: FatSeq           // the FAT of img, as a map
    ghost const mirrored: bool      // the two FAT copies were equal at mount

    ghost predicate WindowOk()
      reads this, win
    {
      && win.Length == SS
      && winsect < DWORD_SIZE
      && (wflag ==> winsect < |disk|)
      && !InMirror(g, winsect)
      && (!wflag && winsect < |disk| ==> disk[winsect] == win[..])
    }

    /** The FAT copies agree, but for the sector waiting in a dirty window. */
    ghost predicate MirrorOk()
      reads this
      requires FatFits(g, |disk|)
    {
      g.nFats == 2 ==>
        forall s: nat :: InFat(g, s) && !(wflag && s == winsect) ==> disk[s + g.fsize] == disk[s]
    }

    /** `img` is the disk overlaid by the window, `fat` is its FAT. */
    ghost predicate Valid()
      reads this, win
    {
      && Fits(g, |disk|)
      && WindowOk()
      && (mirrored ==> MirrorOk())
      && img == LogicalOf(disk, g, winsect, win[..])
      && fat == FatMap(img, g)
      && lastClust < DWORD_SIZE && freeClust < DWORD_SIZE
    }

    lemma Facts()
      requires Valid()
      ensures win.Length == SS && |img| == |disk| && Fits(g, |img|)
      ensures fat == FatMap(img, g) && |fat| == g.nFatent && 3 <= g.nFatent <= 0x0FFF_FFFF
    {
    }

    /** The end of a mount: the window is empty, the allocation hints are those of the FSINFO sector. */
    constructor (g: Geometry, disk: Image, fsiOff: bool, free: nat, last: nat, ghost mirrored: bool)
      requires Fits(g, |disk|) && free < DWORD_SIZE && last < DWORD_SIZE
      requires mirrored && g.nFats == 2 ==> forall s: nat :: InFat(g, s) ==> disk[s + g.fsize] == disk[s]
      ensures Valid() && fresh(win) && |img| == |disk|
      ensures forall s: nat :: s < |disk| && !InMirror(g, s) ==> img[s] == disk[s]
      ensures this.g == g && this.disk == disk && winsect == INVALID_SECTOR && this.mirrored == mirrored
      ensures this.fsiOff == fsiOff && !fsiDirty && freeClust == free && lastClust == last
    {
      this.g := g;
      this.disk := disk;
      this.fsiOff := fsiOff;
      this.mirrored := mirrored;
      win := new Byte[SS](i => 0);
      winsect, wflag := INVALID_SECTOR, false;
      lastClust, freeClust, fsiDirty := last, free, false;
      new;
      img := LogicalOf(disk, g, winsect, win[..]);
      fat := FatMap(img, g);
    }

    // ---- the window ----

    /** `sync_window`: writes the dirty window back, to every copy if it is a FAT sector. */
    method SyncWindow()
      requires Valid() || Detached()
      modifies this`wflag, this`disk
      ensures !wflag && Detached()
      ensures old(Valid()) ==> Valid()
    {
      if wflag {
        var wsect := winsect;
        disk := disk[wsect := win[..]];
        wflag := false;
        if Sub32(wsect, g.fatbase) < g.fsize {
          var nf := g.nFats;
          ghost var d := disk;
          while nf >= 2
            invariant !wflag && |disk| == |d| && nf <= g.nFats
            invariant nf == g.nFats ==> wsect == winsect && disk == d
            invariant nf != g.nFats ==> g.nFats == 2 && disk == d[winsect + g.fsize := win[..]]
          {
            wsect := wsect + g.fsize;
            disk := disk[wsect := win[..]];
            nf := nf - 1;
          }
        }
      }
      assert old(Valid()) ==> img == LogicalOf(disk, g, winsect, win[..]);
      if old(Valid()) {
        CleanView(disk, g, winsect, win[..]);
      }
    }

    /** `move_window`: shows another sector; the disk seen through the window stays as it is. A window
        used as scratch is left in the same way. */
    method MoveWindow(sector: nat)
      requires Valid() || (Detached() && sector != winsect)
      requires sector < |img| && !InMirror(g, sector)
      modifies this`wflag, this`winsect, this`disk, win
      ensures Valid() && winsect == sector
      ensures win[..] == img[sector] && win.Length == SS
    {
      if sector != winsect {
        SyncWindow();
        SpliceAll(win[..], disk[sector]);
        MemCpy(win, 0, disk[sector]);
        winsect := sector;
        CleanView(disk, g, winsect, win[..]);
      }
    }

    /** Stores a byte in the window. */
    method StoreByte(i: nat, v: Byte)
      requires Valid() && i < SS && winsect < |img|
      modifies this`wflag, this`img, this`fat, win
      ensures Valid() && wflag && |img| == |old(img)|
      ensures win[..] == old(win[..])[i := v]
      ensures forall s: nat :: s < |img| && Home(g, s) != winsect ==> img[s] == old(img)[s]
      ensures img[winsect] == old(img)[winsect][i := v]
    {
      win[i] := v;
      wflag := true;
      img := LogicalOf(disk, g, winsect, win[..]);
      fat := FatMap(img, g);
    }

    // ---- FAT bytes ----

    /** The window shows the sector of FAT byte `off`. */
    ghost predicate Shows(off: nat)
      reads this`winsect
    {
      off < g.fsize * SS && winsect == g.fatbase + off / SS
    }

    /** Shows sector `n` of the FAT. */
    method MoveToFatSector(n: nat)
      requires Valid() && n < g.fsize
      modifies this`wflag, this`winsect, this`disk, win
      ensures Valid() && winsect == g.fatbase + n && InFat(g, winsect)
      ensures win.Length == SS && winsect < |img| && win[..] == img[winsect]
    {
      MoveWindow(g.fatbase + n);
    }

    method MoveToFatByte(off: nat)
      requires Valid() && off < g.fsize * SS
      modifies this`wflag, this`winsect, this`disk, win
      ensures Valid() && Shows(off) && InFat(g, winsect)
      ensures win.Length == SS && g.fatbase + g.fsize <= |img| && win[off % SS] == FatByte(img, g, off)
    {
      MoveToFatSector(off / SS);
    }

    method StoreFatByte(off: nat, v: Byte)
      requires Valid() && Shows(off)
      modifies this`wflag, this`img, this`fat, win
      ensures Valid() && wflag && |img| == |old(img)|
      ensures ByteSet(old(img), img, g, off, v)
    {
      StoreByte(off % SS, v);
      SectorByteSet(old(img), img, g, off, v);
    }

    method StoreFatWord(off: nat, v0: Byte, v1: Byte)
      requires Valid() && Shows(off) && Shows(off + 1)
      modifies this`wflag, this`img, this`fat, win
      ensures Valid() && wflag && |img| == |old(img)|
      ensures WordSet(old(img), img, g, off, v0, v1)
    {
      hide *;
      ghost var a := img;
      StoreFatByte(off, v0);
      ghost var m := img;
      StoreFatByte(off + 1, v1);
      TwoByteSets(a, m, img, g, off, v0, v1);
    }

    method StoreFatDword(off: nat, v0: Byte, v1: Byte, v2: Byte, v3: Byte)
      requires Valid() && Shows(off) && Shows(off + 1) && Shows(off + 2) && Shows(off + 3)
      modifies this`wflag, this`img, this`fat, win
      ensures Valid() && wflag && |img| == |old(img)|
      ensures DwordSet(old(img), img, g, off, v0, v1, v2, v3)
    {
      hide *;
      ghost var a := img;
      StoreFatWord(off, v0, v1);
      ghost var m := img;
      assert off + 2 + 1 == off + 3;
      StoreFatWord(off + 2, v2, v3);
      TwoWordSets(a, m, img, g, off, v0, v1, v2, v3);
    }

    // ---- FAT entries ----

    /** `get_fat`. 1: `clst` is out of range. */
    method GetFat(clst: nat) returns (val: nat)
      requires Valid()
      modifies this`wflag, this`winsect, this`disk, win
      ensures Valid() && |fat| == g.nFatent
      ensures val == if clst < 2 || clst >= g.nFatent then 1 else fat[clst]
      ensures if 2 <= clst < g.nFatent then InFat(g, winsect) else winsect == old(winsect)
    {
      Facts();
      hide *;
      if clst < 2 || clst >= g.nFatent {
        val := 1;
      } else {
        match g.fsType
        case Fat12 => val := GetFat12(clst);
        case Fat16 => val := GetFat16(clst);
        case Fat32 => val := GetFat32(clst);
      }
    }

    /** The entry of a valid cluster number lies in the FAT. */
    lemma EntryFits(clst: nat)
      requires Valid() && clst < g.nFatent
      ensures FatFits(g, |img|) && EntryEnd(g.fsType, clst) <= g.fsize * SS && |fat| == g.nFatent
      ensures g.fatbase + g.fsize <= |img| && fat[clst] == FatEntry(img, g, clst)
    {
    }

    method GetFat12(clst: nat) returns (val: nat)
      requires Valid() && g.fsType == Fat12 && clst < g.nFatent
      modifies this`wflag, this`winsect, this`disk, win
      ensures Valid() && InFat(g, winsect)
      ensures |fat| == g.nFatent && val == fat[clst]
    {
      hide *;
      EntryFits(clst);
      EntryBytes12(img, g, clst);
      var wc := GetTwoBytes(clst + clst / 2);
      val := if clst % 2 == 1 then wc / 16 else wc % 0x1000;
    }

    /** Reads two FAT bytes, each in the sector it is in. */
    method GetTwoBytes(off: nat) returns (wc: nat)
      requires Valid() && off + 1 < g.fsize * SS
      modifies this`wflag, this`winsect, this`disk, win
      ensures Valid() && InFat(g, winsect)
      ensures g.fatbase + g.fsize <= |img|
      ensures wc == FatByte(img, g, off) + 0x100 * FatByte(img, g, off + 1)
    {
      hide *;
      var bc := off;
      MoveToFatByte(bc);
      wc := win[bc % SS];
      bc := bc + 1;
      MoveToFatByte(bc);
      wc := wc + 0x100 * win[bc % SS] as nat;
    }

    method GetFat16(clst: nat) returns (val: nat)
      requires Valid() && g.fsType == Fat16 && clst < g.nFatent
      modifies this`wflag, this`winsect, this`disk, win
      ensures Valid() && InFat(g, winsect)
      ensures |fat| == g.nFatent && val == fat[clst]
    {
      hide *;
      SectorSize();
      EntryFits(clst);
      EntryInSector(img, g, clst);
      MoveToFatSector(clst / (SS / 2));
      WordEntry(img, g, clst, win[..]);
      val := LdWord(win[..], clst * 2 % SS);
    }

    method GetFat32(clst: nat) returns (val: nat)
      requires Valid() && g.fsType == Fat32 && clst < g.nFatent
      modifies this`wflag, this`winsect, this`disk, win
      ensures Valid() && InFat(g, winsect)
      ensures |fat| == g.nFatent && val == fat[clst]
    {
      hide *;
      SectorSize();
      EntryFits(clst);
      EntryInSector(img, g, clst);
      MoveToFatSector(clst / (SS / 4));
      DwordEntry(img, g, clst, win[..]);
      val := LdDword(win[..], clst * 4 % SS) % 0x1000_0000;
    }

    /** `put_fat`. False: `clst` is out of range. */
    method PutFat(clst: nat, val: nat) returns (ok: bool)
      requires Valid() && val < DWORD_SIZE
      modifies this`wflag, this`winsect, this`disk, this`img, this`fat, win
      ensures Valid() && ok == (2 <= clst < g.nFatent) && |old(fat)| == g.nFatent
      ensures ok ==> fat == old(fat)[clst := Trunc(g.fsType, val)]
      ensures ok ==> SameOutsideFat(old(img), img, g) && InFat(g, winsect)
      ensures ok && g.fsType == Fat32 ==> TopKept(old(img), img, g, clst, val)
      ensures !ok ==> img == old(img) && fat == old(fat) && winsect == old(winsect)
    {
      Facts();
      hide *;
      ok := !(clst < 2 || clst >= g.nFatent);
      if ok {
        match g.fsType
        case Fat12 => PutFat12(clst, val);
        case Fat16 => PutFat16(clst, val);
        case Fat32 => PutFat32(clst, val);
      }
    }

    /** The map follows from the image. */
    lemma FatIs(m: FatSeq)
      requires Valid() && FatFits(g, |img|) && FatMap(img, g) == m
      ensures fat == m
    {
    }

    method PutFat12(clst: nat, val: nat)
      requires Valid() && g.fsType == Fat12 && clst < g.nFatent == |fat|
      modifies this`wflag, this`winsect, this`disk, this`img, this`fat, win
      ensures Valid() && InFat(g, winsect)
      ensures fat == old(fat)[clst := Trunc(Fat12, val)]
      ensures SameOutsideFat(old(img), img, g)
    {
      EntryFits(clst);
      Facts();
      hide Valid, FatFits, InFat, FatMap, LogicalOf, Low8, ByteSet, NibblesSet, SameOutsideFat;
      hide FatByte, First12, Second12;
      ghost var a, F := img, fat;
      PutFirst12(clst, val);
      ghost var m := img;
      FirstKeepsSecond(a, m, g, clst, val);
      PutSecond12(clst, val);
      TwoBytesSetNibbles(a, m, img, g, clst, val);
      Put12(a, img, g, clst, val);
      FatIs(F[clst := Trunc(Fat12, val)]);
    }

    method PutFirst12(clst: nat, val: nat)
      requires Valid() && clst + clst / 2 < g.fsize * SS && g.fatbase + g.fsize <= |img|
      modifies this`wflag, this`winsect, this`disk, this`img, this`fat, win
      ensures Valid() && InFat(g, winsect) && |img| == |old(img)|
      ensures var bc := clst + clst / 2;
        ByteSet(old(img), img, g, bc, First12(clst, val, FatByte(old(img), g, bc)))
    {
      hide *;
      var bc := clst + clst / 2;
      MoveToFatByte(bc);
      StoreFatByte(bc, First12(clst, val, win[bc % SS]));
    }

    method PutSecond12(clst: nat, val: nat)
      requires Valid() && clst + clst / 2 + 1 < g.fsize * SS && g.fatbase + g.fsize <= |img|
      modifies this`wflag, this`winsect, this`disk, this`img, this`fat, win
      ensures Valid() && InFat(g, winsect) && |img| == |old(img)|
      ensures var bc := clst + clst / 2 + 1;
        ByteSet(old(img), img, g, bc, Second12(clst, val, FatByte(old(img), g, bc)))
    {
      hide *;
      var bc := clst + clst / 2 + 1;
      MoveToFatByte(bc);
      StoreFatByte(bc, Second12(clst, val, win[bc % SS]));
    }

    method PutFat16(clst: nat, val: nat)
      requires Valid() && g.fsType == Fat16 && clst < g.nFatent == |fat|
      modifies this`wflag, this`winsect, this`disk, this`img, this`fat, win
      ensures Valid() && InFat(g, winsect)
      ensures fat == old(fat)[clst := Trunc(Fat16, val)]
      ensures SameOutsideFat(old(img), img, g)
    {
      EntryFits(clst);
      Facts();
      hide Valid, FatFits, InFat, FatMap, LogicalOf, Low8, WordSet, SameOutsideFat, Shows;
      ghost var a, F := img, fat;
      MoveToFatSector(clst / (SS / 2));
      ShowsWord(clst, 0);
      ShowsWord(clst, 1);
      StoreFatWord(2 * clst, Low8(val), Low8(val / 0x100));
      Put16(a, img, g, clst, val);
      FatIs(F[clst := Trunc(Fat16, val)]);
    }

    lemma ShowsWord(clst: nat, j: nat)
      requires EntryEnd(Fat16, clst) <= g.fsize * SS && j < 2
      requires winsect == g.fatbase + clst / (SS / 2)
      ensures Shows(2 * clst + j)
    {
      WordPos(clst, j);
    }

    method PutFat32(clst: nat, val: nat)
      requires Valid() && g.fsType == Fat32 && clst < g.nFatent == |fat| && val < DWORD_SIZE
      requires EntryEnd(Fat32, clst) <= g.fsize * SS && g.fatbase + g.fsize <= |img|
      modifies this`wflag, this`winsect, this`disk, this`img, this`fat, win
      ensures Valid() && InFat(g, winsect)
      ensures fat == old(fat)[clst := Trunc(Fat32, val)]
      ensures SameOutsideFat(old(img), img, g)
      ensures TopKept(old(img), img, g, clst, val)
    {
      EntryFits(clst);
      Facts();
      hide *;
      ghost var a, F := img, fat;
      StoreMerged32(clst, val);
      Put32(a, img, g, clst, val);
      MergeKeepsLow(val, RawEntry32(a, g, clst));
      FatIs(F[clst := Trunc(Fat32, val)]);
      EntryFits(clst);
      IsTopKept(a, img, g, clst, val);
    }

    /** The read-modify-write of a FAT32 entry. */
    method StoreMerged32(clst: nat, val: nat)
      requires Valid() && EntryEnd(Fat32, clst) <= g.fsize * SS && val < DWORD_SIZE
      requires clst / (SS / 4) < g.fsize && g.fatbase + g.fsize <= |img|
      modifies this`wflag, this`winsect, this`disk, this`img, this`fat, win
      ensures Valid() && InFat(g, winsect) && |img| == |old(img)|
      ensures Entry32Set(old(img), img, g, clst, Merge32(val, RawEntry32(old(img), g, clst)))
    {
      hide Valid, FatFits, InFat, FatMap, LogicalOf, LdDword, Entry32, RawEntry32, Entry32Set, Merge32;
      MoveToFatSector(clst / (SS / 4));
      DwordEntry(img, g, clst, win[..]);
      StoreEntry32(clst, Merge32(val, LdDword(win[..], clst * 4 % SS)));
    }

    /** Stores the double word of a FAT32 entry. */
    method StoreEntry32(clst: nat, v: nat)
      requires Valid() && EntryEnd(Fat32, clst) <= g.fsize * SS
      requires winsect == g.fatbase + clst / (SS / 4)
      modifies this`wflag, this`img, this`fat, win
      ensures Valid() && wflag && |img| == |old(img)|
      ensures Entry32Set(old(img), img, g, clst, v)
    {
      hide Valid, Shows, LogicalOf, Low8, DwordSet;
      ShowsDword(clst, 0);
      ShowsDword(clst, 1);
      ShowsDword(clst, 2);
      ShowsDword(clst, 3);
      StoreFatDword(4 * clst, Low8(v), Low8(v / 0x100), Low8(v / 0x1_0000), Low8(v / 0x100_0000));
    }

    lemma ShowsDword(clst: nat, j: nat)
      requires EntryEnd(Fat32, clst) <= g.fsize * SS && j < 4
      requires winsect == g.fatbase + clst / (SS / 4)
      ensures Shows(4 * clst + j)
    {
      DwordPos(clst, j);
    }

    // ---- direct transfers between the drive and the file buffers ----

    /** `disk_read` of one sector. */
    method DiskRead(sect: nat) returns (s: Sector)
      requires Valid() && g.database <= sect < |img| && sect != winsect
      ensures s == img[sect]
    {
      s := disk[sect];
    }

    /** `disk_read` of `cc` sectors. */
    method DiskReadMany(sect: nat, cc: nat) returns (out: seq<Byte>)
      requires Valid() && g.database <= sect && sect + cc <= |img| && !(sect <= winsect < sect + cc)
      ensures out == Flat(img, sect, cc)
    {
      var src := disk;
      out := seq<Byte>(SS * cc, i requires 0 <= i < SS * cc => src[sect + i / SS][i % SS]);
    }

    /** `disk_write` of one sector. */
    method DiskWrite(src: Sector, sect: nat)
      requires Valid() && g.database <= sect < |img| && sect != winsect
      modifies this`disk, this`img
      ensures Valid() && img == old(img)[sect := src]
    {
      disk := disk[sect := src];
      img := img[sect := src];
      assert img == LogicalOf(disk, g, winsect, win[..]);
      DataWriteKeepsFat(old(img), img, g);
    }

    /** `disk_write` of `cc` sectors. */
    method DiskWriteMany(data: seq<Byte>, sect: nat, cc: nat)
      requires Valid() && g.database <= sect && sect + cc <= |img| && !(sect <= winsect < sect + cc)
      requires |data| == SS * cc
      modifies this`disk, this`img
      ensures Valid() && SectorsWritten(old(img), img, sect, cc, data)
    {
      hide *;
      var i := 0;
      WrittenNone(img, sect, data);
      while i < cc
        invariant Valid() && i <= cc && |img| == |old(img)|
        invariant WrittenUpTo(old(img), img, sect, i, data)
      {
        ghost var m := img;
        DiskWrite(Chunk(data, i), sect + i);
        WrittenOneMore(old(img), m, img, sect, i, data);
        i := i + 1;
      }
      WrittenAll(old(img), img, sect, cc, data);
    }

    // ---- cluster chains ----

    /** The free-cluster counter is accurate. */
    ghost predicate Counted()
      reads this`freeClust, this`fat
    {
      freeClust == FreeCount(fat)
    }

    /** `remove_chain`: frees the clusters from `clst` on. False: internal error. */
    method RemoveChain(clst: nat) returns (ok: bool)
      requires Valid()
      modifies this`wflag, this`winsect, this`disk, this`img, this`fat, this`freeClust, this`fsiDirty, win
      ensures Valid() && SameOutsideFat(old(img), img, g)
      ensures if 2 <= clst < g.nFatent then (fat, ok) == FreeFrom(old(fat), clst) && InFat(g, winsect)
        else !ok && fat == old(fat)
      // whatever the FAT holds, the clusters that are reached are freed and no others
      ensures |fat| == |old(fat)|
      ensures 2 <= clst < g.nFatent ==>
        (forall d: nat :: d < |fat| ==> fat[d] == if Reaches(old(fat), clst, d) then 0 else old(fat)[d])
        && (ok <==> !MeetsOne(old(fat), clst))
      ensures old(Counted()) ==> Counted()
    {
      Facts();
      hide *;
      ghost var F0, L0 := fat, img;
      FreedIsReached(F0, clst);
      SameOutsideRefl(img, g);
      if clst < 2 || clst >= g.nFatent {
        ok := false;
      } else {
        ok := true;
        var c := clst;
        var go := true;
        while c < g.nFatent && go
          invariant Valid() && (go ==> 2 <= c) && |fat| == g.nFatent
          invariant (c == clst && go) || InFat(g, winsect)
          invariant SameOutsideFat(L0, img, g)
          invariant go ==> ok && FreeFrom(fat, c) == FreeFrom(F0, clst)
          invariant !go ==> (fat, ok) == FreeFrom(F0, clst)
          invariant old(Counted()) ==> Counted()
          decreases go, Used(fat)
        {
          ghost var F, L := fat, img;
          var nxt;
          nxt, go, ok := FreeOne(c);
          SameOutsideTrans(L0, L, img, g);
          FreeStep(F, c);
          c := nxt;
        }
        if go {
          FreeStop(fat, c);
        }
      }
    }

    /** One turn of the loop of `remove_chain`. */
    method FreeOne(c: nat) returns (nxt: nat, go: bool, ok: bool)
      requires Valid() && 2 <= c < g.nFatent == |fat|
      modifies this`wflag, this`winsect, this`disk, this`img, this`fat, this`freeClust, this`fsiDirty, win
      ensures Valid() && InFat(g, winsect) && |fat| == g.nFatent
      ensures SameOutsideFat(old(img), img, g)
      ensures nxt == old(fat)[c]
      ensures go <==> nxt > 1
      ensures ok <==> nxt != 1
      ensures fat == if go then old(fat)[c := 0] else old(fat)
      ensures old(Counted()) ==> Counted()
    {
      ZeroEntry(g);
      Facts();
      FreeCountUpdate(fat, c, 0);
      hide Valid, FreeCount, SameOutsideFat, FatMap, LogicalOf;
      nxt := GetFat(c);
      go, ok := nxt != 0 && nxt != 1, nxt != 1;
      SameOutsideRefl(img, g);
      if go {
        ok := PutFat(c, 0);
        CountBound();
        CountUp();
      }
    }

    method CountUp()
      requires Valid()
      modifies this`freeClust, this`fsiDirty
      ensures Valid()
      ensures old(freeClust) < 0xFFFF_FFFF ==> freeClust == old(freeClust) + 1
    {
      if freeClust != 0xFFFF_FFFF {
        freeClust := (freeClust + 1) % DWORD_SIZE;
        fsiDirty := true;
      }
    }

    lemma CountBound()
      requires Valid()
      ensures FreeCount(fat) < 0xFFFF_FFFF
    {
    }

    /** The cyclic scan for a free cluster after `scl`. 0: none, 1: an entry is 1. */
    method FindFree(scl: nat) returns (r: nat)
      requires Valid() && 1 <= scl < g.nFatent == |fat|
      modifies this`wflag, this`winsect, this`disk, win
      ensures Valid()
      ensures winsect == old(winsect) || InFat(g, winsect)
      ensures r == 0 ==> NoneFree(fat)
      ensures r == 1 ==> !NoOnes(fat)
      ensures r >= 2 ==> NextFit(fat, scl, r)
    {
      hide *;
      var ncl := scl;
      ghost var wrapped := false;
      ScanStarts(fat, scl);
      while true
        invariant Valid()
        invariant winsect == old(winsect) || InFat(g, winsect)
        invariant 1 <= ncl < g.nFatent && Scanned(fat, scl, ncl, wrapped)
        invariant if wrapped then 2 <= ncl < scl else scl <= ncl
        decreases !wrapped, g.nFatent - ncl
      {
        ncl := ncl + 1;
        if ncl >= g.nFatent {
          ncl := 2;
          wrapped := true;
          ScanWraps(fat, scl);
          if ncl > scl {
            ScannedAll(fat, scl, 1);
            return 0;
          }
        }
        var cs := GetFat(ncl);
        if cs == 0 {
          ScannedUpTo(fat, scl, ncl, wrapped);
          return ncl;
        }
        if cs == 1 {
          OneFound(fat, ncl);
          return 1;
        }
        ScanStep(fat, scl, ncl, wrapped);
        if ncl == scl {
          ScannedAll(fat, scl, scl);
          return 0;
        }
      }
    }

    /** Marks `ncl` as a last link and links it after `clst`. */
    method LinkNew(clst: nat, ncl: nat)
      requires Valid() && 2 <= ncl < g.nFatent == |fat| && fat[ncl] == 0
      requires clst == 0 || (2 <= clst < g.nFatent && fat[clst] != 0)
      modifies this`wflag, this`winsect, this`disk, this`img, this`fat, win
      modifies this`freeClust, this`fsiDirty, this`lastClust
      ensures Valid() && InFat(g, winsect)
      ensures SameOutsideFat(old(img), img, g)
      ensures fat == Allocated(old(fat), clst, ncl, Trunc(g.fsType, EOC))
      ensures lastClust == ncl
      ensures old(Counted()) ==> Counted()
    {
      Facts();
      TruncCluster(g, ncl);
      CountBound();
      FreeCountUpdate(fat, ncl, Trunc(g.fsType, EOC));
      hide Valid, FreeCount, SameOutsideFat, FatMap, LogicalOf, Trunc;
      ghost var L, F := img, fat;
      var ok := PutFat(ncl, EOC);
      ghost var M := img;
      if clst != 0 {
        ok := PutFat(clst, ncl);
        SameOutsideTrans(L, M, img, g);
        FreeCountUpdate(F[ncl := Trunc(g.fsType, EOC)], clst, ncl);
      }
      CountDown(ncl);
    }

    method CountDown(ncl: nat)
      requires Valid() && ncl < DWORD_SIZE
      modifies this`freeClust, this`fsiDirty, this`lastClust
      ensures Valid()
      ensures lastClust == ncl
      ensures 0 < old(freeClust) < 0xFFFF_FFFF ==> freeClust == old(freeClust) - 1
    {
      lastClust := ncl;
      if freeClust != 0xFFFF_FFFF {
        freeClust := Sub32(freeClust, 1);
        fsiDirty := true;
      }
    }

    /** `create_chain`: stretches the chain that ends in `clst`, or starts a new chain
        if `clst` is 0. 0: no free cluster, 1: internal error, else the next cluster. */
    method CreateChain(clst: nat) returns (ncl: nat)
      requires Valid()
      modifies this`wflag, this`winsect, this`disk, this`img, this`fat, win
      modifies this`freeClust, this`fsiDirty, this`lastClust
      ensures Valid()
      ensures SameOutsideFat(old(img), img, g)
      ensures winsect == old(winsect) || InFat(g, winsect)
      ensures CreateOutcome(old(fat), fat, clst, old(lastClust), ncl, Trunc(g.fsType, EOC))
      // where a new cluster is looked for: behind the chain, or behind the last one allocated
      ensures fat != old(fat) ==> FirstFreeBehind(old(fat),
        if clst != 0 then clst else if 1 <= old(lastClust) < |old(fat)| then old(lastClust) else 1, ncl)
      ensures fat != old(fat) ==> InFat(g, winsect)
      ensures old(Counted()) ==> Counted()
    {
      Facts();
      hide Valid, FreeCount, SameOutsideFat, FatMap, LogicalOf, InFat, FirstFreeBehind;
      SameOutsideRefl(img, g);
      var scl;
      if clst == 0 {
        scl := lastClust;
        if scl == 0 || scl >= g.nFatent {
          scl := 1;
        }
      } else {
        var cs := GetFat(clst);
        if cs < 2 {
          return 1;
        }
        if cs < g.nFatent {
          return cs;
        }
        scl := clst;
      }
      ncl := FindFree(scl);
      if ncl >= 2 {
        LinkNew(clst, ncl);
        NextFitIs(old(fat), scl, ncl);
      }
    }

    /** The cut in `f_truncate`: makes `clst` the last cluster of its chain and frees the
        rest. `clst` is cluster `k` of the chain `xs`. */
    method CutAfter(clst: nat, ghost xs: seq<nat>, ghost k: nat) returns (ok: bool)
      requires Valid() && NoOnes(fat) && IsChain(fat, xs) && k < |xs| && clst == xs[k]
      modifies this`wflag, this`winsect, this`disk, this`img, this`fat, this`freeClust, this`fsiDirty, win
      ensures Valid() && SameOutsideFat(old(img), img, g) && InFat(g, winsect)
      ensures ok && ChainCut(old(fat), fat, xs, xs[..k + 1])
      ensures old(Counted()) ==> Counted()
    {
      hide *;
      Facts();
      EndMark();
      ghost var F, L := fat, img;
      LinkAt(F, xs, k);
      InChainRange(F, xs, k);
      SameOutsideRefl(L, g);
      var ncl := GetFat(clst);
      ok := ncl != 1;
      if ok && ncl < g.nFatent {
        CutAt(F, xs, k, Trunc(g.fsType, EOC));
        InChainRange(F, xs, k + 1);
        CountedCut(F, clst, Trunc(g.fsType, EOC));
        ok := PutFat(clst, EOC);
        ghost var M := img;
        IsCounted(F);
        if ok {
          ok := RemoveChain(ncl);
          SameOutsideTrans(L, M, img, g);
        }
      } else {
        CutNothing(F, xs);
        assert xs[..k + 1] == xs;
      }
    }

    lemma EndMark()
      requires Valid()
      ensures EOC < DWORD_SIZE && 2 <= |fat| == g.nFatent <= Trunc(g.fsType, EOC)
    {
    }

    lemma CountedCut(F: FatSeq, c: nat, eoc: nat)
      requires 2 <= c < |F| && F[c] != 0 && eoc != 0
      ensures FreeCount(F[c := eoc]) == FreeCount(F)
    {
      FreeCountUpdate(F, c, eoc);
    }

    /** The counter stays accurate when the number of free clusters stays. */
    twostate lemma IsCounted(F: FatSeq)
      requires FreeCount(fat) == FreeCount(F) && F == old(fat) && freeClust == old(freeClust)
      ensures old(Counted()) ==> Counted()
    {
    }

    // ---- free space ----

    /** `f_getfree`: the counter if it is plausible, else a scan, which sets it. */
    method GetFree() returns (ok: bool, n: nat)
      requires Valid()
      modifies this`wflag, this`winsect, this`disk, win, this`freeClust, this`fsiDirty
      ensures Valid()
      ensures old(freeClust) <= g.nFatent - 2 ==> ok && n == old(freeClust) == freeClust
      ensures old(freeClust) > g.nFatent - 2 ==> freeClust == n && fsiDirty
      // the scan of a FAT12 volume counts the free clusters
      ensures old(freeClust) > g.nFatent - 2 && g.fsType == Fat12 ==> ok == NoOnes(fat) && (ok ==> Counted())
      // the scan of the other FATs also counts entries 0 and 1
      ensures old(freeClust) > g.nFatent - 2 && g.fsType != Fat12 ==>
        ok && |fat| >= 2 && (Counted() <==> fat[0] != 0 && fat[1] != 0)
    {
      hide *;
      Facts();
      ok := true;
      if freeClust <= g.nFatent - 2 {
        n := freeClust;
      } else {
        if g.fsType == Fat12 {
          ok, n := ScanEntries();
        } else {
          n := ScanSectors();
        }
        SetFree(n);
        CountedIs();
        ZerosAreFree(fat, |fat|);
        TotalFree(fat);
      }
    }

    lemma CountedIs()
      ensures Counted() <==> freeClust == FreeCount(fat)
    {
    }

    lemma TotalFree(F: FatSeq)
      requires |F| >= 2
      ensures FreeCount(F) == FreeBelow(F, |F|)
      ensures One(F[0] == 0) + One(F[1] == 0) == 0 <==> F[0] != 0 && F[1] != 0
    {
    }

    method SetFree(n: nat)
      requires Valid() && n < DWORD_SIZE
      modifies this`freeClust, this`fsiDirty
      ensures Valid() && freeClust == n && fsiDirty
    {
      freeClust := n;
      fsiDirty := true;
    }

    /** The scan entry by entry. False: an entry is 1. */
    method ScanEntries() returns (ok: bool, n: nat)
      requires Valid()
      modifies this`wflag, this`winsect, this`disk, win
      ensures Valid() && n < DWORD_SIZE && ok == NoOnes(fat)
      ensures ok ==> n == FreeBelow(fat, |fat|)
    {
      hide *;
      Facts();
      DwordSize();
      var clst := 2;
      n, ok := 0, true;
      FreeBelowNext(fat, 2);
      NoOnesStart(fat);
      while ok && clst < g.nFatent
        invariant Valid() && 2 <= clst <= g.nFatent == |fat| < DWORD_SIZE
        invariant n <= clst && (ok ==> n == FreeBelow(fat, clst))
        invariant if ok then NoOnesBelow(fat, clst) else !NoOnes(fat)
        decreases ok, g.nFatent - clst
      {
        var stat := GetFat(clst);
        if stat == 1 {
          OneFound(fat, clst);
          ok := false;
        } else {
          FreeBelowNext(fat, clst);
          OneIs(stat == 0);
          NoOnesNext(fat, clst);
          if stat == 0 {
            n := n + 1;
          }
          clst := clst + 1;
        }
      }
      if ok {
        NoOnesAll(fat);
      }
    }

    lemma OneIs(b: bool)
      ensures One(b) == if b then 1 else 0
    {
    }

    /** The scan through the words or double words of the FAT sectors. */
    method ScanSectors() returns (n: nat)
      requires Valid() && g.fsType != Fat12
      modifies this`wflag, this`winsect, this`disk, win
      ensures Valid() && n < DWORD_SIZE && n == Zeros(fat, |fat|)
    {
      hide *;
      Facts();
      DwordSize();
      var clst: nat, sect: nat, i: nat, p: nat := g.nFatent, g.fatbase, 0, 0;
      n := 0;
      ScanStart0(g, winsect);
      ZerosNext(fat, 0);
      while clst > 0
        invariant Valid() && clst <= g.nFatent == |fat| < DWORD_SIZE
        invariant Scanning(g, winsect, sect, g.nFatent - clst, p, i)
        invariant n == Zeros(fat, g.nFatent - clst) <= g.nFatent - clst
        invariant i > 0 ==> win.Length == SS && winsect < |img| && win[..] == img[winsect]
      {
        if i == 0 {
          LoadNext(sect, g.nFatent - clst, p);
          sect, p, i := sect + 1, 0, SS;
        }
        var zero := EntryIsZero(sect, g.nFatent - clst, p, i);
        ZerosNext(fat, g.nFatent - clst);
        OneIs(zero);
        if zero {
          n := n + 1;
        }
        ScanMoves(g, winsect, sect, g.nFatent - clst, p, i);
        p, i := p + Width(g.fsType), i - Width(g.fsType);
        clst := clst - 1;
      }
    }

    method LoadNext(sect: nat, ghost c: nat, ghost p: nat)
      requires Valid() && g.fsType != Fat12 && c < g.nFatent && Scanning(g, winsect, sect, c, p, 0)
      modifies this`wflag, this`winsect, this`disk, win
      ensures Valid() && Scanning(g, winsect, sect + 1, c, 0, SS) && SS > 0
      ensures win.Length == SS && winsect < |img| && win[..] == img[winsect]
    {
      ScanInFat(g, winsect, sect, c, p);
      ScanLoads(g, winsect, sect, c, p);
      hide Valid, Scanning, InFat;
      MoveToFatSector(sect - g.fatbase);
    }

    /** Looks at the entry at offset `p` of the window. */
    method EntryIsZero(ghost sect: nat, ghost c: nat, p: nat, ghost left: nat) returns (zero: bool)
      requires Valid() && g.fsType != Fat12 && c < g.nFatent == |fat| && Scanning(g, winsect, sect, c, p, left)
      requires left > 0
      requires win.Length == SS && winsect < |img| && win[..] == img[winsect]
      ensures zero == (fat[c] == 0)
    {
      EntryFits(c);
      ScanSees(img, g, sect, winsect, c, p, left, win[..]);
      hide Valid, Scanning;
      if g.fsType == Fat16 {
        zero := LdWord(win[..], p) == 0;
      } else {
        zero := LdDword(win[..], p) % 0x1000_0000 == 0;
      }
    }

    // ---- synchronisation ----

    /** The FSINFO sector has to be rewritten. */
    predicate InfoDue()
      reads this
    {
      g.fsType == Fat32 && fsiDirty && !fsiOff
    }

    /** The FSINFO sector, at a fixed place, is the first sector of the FAT: there is one reserved
        sector only. */
    predicate InfoInFat()
      reads this
    {
      g.volbase + 1 == g.fatbase
    }

    /** `sync_fs`: afterwards the drive holds everything, in every FAT copy, and the FSINFO sector if
        it was due. Where that is the first sector of the FAT its entries are lost. */
    method SyncFs()
      requires Valid()
      modifies this`wflag, this`winsect, this`disk, this`img, this`fat, this`fsiDirty, win
      ensures !wflag && |disk| == |old(disk)| && !InfoDue()
      ensures forall s: nat :: s < |disk| && !InMirror(g, s) ==>
        disk[s] == if old(InfoDue()) && s == g.volbase + 1 then FsInfo(freeClust, lastClust) else old(img)[s]
      ensures img == LogicalOf(disk, g, winsect, win[..])
      ensures !(old(InfoDue()) && InfoInFat()) ==>
        Valid() && fat == old(fat) && (mirrored ==> disk == img)
        && img == if old(InfoDue()) then old(img)[g.volbase + 1 := FsInfo(freeClust, lastClust)] else old(img)
      ensures old(InfoDue()) && InfoInFat() ==>
        Overwritten(old(fat), fat, freeClust, lastClust)
        && (mirrored ==> forall s: nat :: s < |disk| && InMirror(g, s) ==> disk[s] == old(img)[s])
      ensures old(InfoDue()) ==> (fat == old(fat) <==> !InfoInFat() || ReadsAsInfo(old(fat), freeClust, lastClust))
      ensures old(InfoDue()) && (exists c: nat :: 2 <= c <= 120 && c < |old(fat)| && old(fat)[c] != 0) ==>
        (fat == old(fat) <==> !InfoInFat())
    {
      hide FsInfo, Overwritten, ReadsAsInfo, FatMap, LogicalOf;
      SyncWindow();
      SyncedDisk();
      ghost var F := fat;
      if g.fsType == Fat32 && fsiDirty && !fsiOff {
        WriteFsInfo();
        if InfoInFat() {
          ClustersLost(F, fat, freeClust, lastClust);
        } else {
          SyncedDisk();
        }
      }
    }

    lemma SyncedDisk()
      requires Valid() && !wflag
      ensures forall s: nat :: s < |disk| && !InMirror(g, s) ==> disk[s] == img[s]
      ensures mirrored ==> disk == img
    {
    }

    /** Builds the FSINFO sector in the window and writes it. */
    method WriteFsInfo()
      requires Valid() && !wflag
      modifies this`winsect, this`disk, this`img, this`fat, this`fsiDirty, win
      ensures !wflag && !fsiDirty && |disk| == |old(disk)|
      ensures g.volbase + 1 < |disk| && disk == old(disk)[g.volbase + 1 := FsInfo(freeClust, lastClust)]
      ensures img == LogicalOf(disk, g, winsect, win[..])
      ensures !InfoInFat() ==>
        Valid() && fat == old(fat) && img == old(img)[g.volbase + 1 := FsInfo(freeClust, lastClust)]
      ensures InfoInFat() && g.fsType == Fat32 ==> Overwritten(old(fat), fat, freeClust, lastClust)
    {
      hide FsInfo, FatMap, LogicalOf, Overwritten;
      LayoutOrder(g, |disk|);
      ghost var m := FsInfo(freeClust, lastClust);
      SpliceAll(win[..], m);
      MemCpy(win, 0, FsInfo(freeClust, lastClust));
      winsect := g.volbase + 1;
      disk := disk[winsect := win[..]];
      fsiDirty := false;
      assert win[..] == m;
      img := LogicalOf(disk, g, winsect, m);
      fat := FatMap(img, g);
      if InfoInFat() {
        InfoShown(old(disk), disk, g, old(winsect), winsect, old(win[..]), m);
        if g.fsType == Fat32 {
          FirstSectorLost(old(img), img, g, freeClust, lastClust);
        }
      } else {
        InfoOverlay(old(disk), disk, g, old(winsect), winsect, old(win[..]), m);
        DataWriteKeepsFat(old(img), img, g);
      }
    }

    // ---- the window as scratch ----

    /** Valid, but for a window that is not dirty and need not show its sector. */
    ghost predicate Detached()
      reads this, win
    {
      && !wflag && Fits(g, |disk|) && win.Length == SS && winsect < DWORD_SIZE
      && (mirrored ==> MirrorOk())
      && img == Homes(disk, g)
      && fat == FatMap(img, g)
      && lastClust < DWORD_SIZE && freeClust < DWORD_SIZE
    }

    lemma CleanIsDetached()
      requires Valid() && !wflag
      ensures Detached()
    {
      CleanView(disk, g, winsect, win[..]);
    }

    lemma DetachedFacts()
      requires Detached()
      ensures !wflag && win.Length == SS && |img| == |disk| && Fits(g, |img|) && img == Homes(disk, g)
    {
    }

    lemma DetachedAt(s: nat)
      requires Detached() && s < |img| && !InMirror(g, s)
      ensures s < |disk| && disk[s] == img[s]
    {
    }

    /** A window that shows its sector again is valid. */
    lemma AttachedIsValid()
      requires Detached() && winsect < |disk| && !InMirror(g, winsect) && disk[winsect] == win[..]
      ensures Valid()
    {
      CleanView(disk, g, winsect, win[..]);
    }

    /** Writes the window to the sector it is at, outside the FAT. */
    method PutWindow()
      requires Detached() && g.fatbase + FatSectors(g) <= winsect < |img|
      modifies this`wflag, this`disk, this`img
      ensures Detached() && img == old(img)[winsect := win[..]]
      ensures winsect < |disk| && disk[winsect] == win[..]
    {
      ghost var a := img;
      DetachedFacts();
      wflag := true;
      img := a[winsect := win[..]];
      DirtyOverlay(disk, g, winsect, win[..]);
      DataWriteKeepsFat(a, img, g);
      SyncWindow();
      CleanIsDetached();
      ShowsClean();
    }

    lemma ShowsClean()
      requires Valid() && !wflag
      ensures winsect < |disk| ==> disk[winsect] == win[..]
    {
    }

    /** The clean-up of a new cluster in `dir_next`: fills its sectors with zeros, through
        the window, and leaves the window at the first of them. */
    method ZeroCluster(clst: nat)
      requires Valid() && 2 <= clst < g.nFatent
      modifies this`wflag, this`winsect, this`disk, this`img, win
      ensures Valid() && winsect == Base(g, clst) && Zeroed(g, old(img), img, Base(g, clst), g.csize)
      ensures fat == old(fat)
    {
      hide *;
      Facts();
      SectorSize();
      ghost var base, a := Base(g, clst), img;
      ClusterInDisk(g, |img|, clst);
      SyncWindow();
      CleanIsDetached();
      MemClear();
      SetWinsect(Clust2Sect(g, clst));
      var c := 0;
      NoneZeroed(g, a, base);
      while c < g.csize
        invariant Detached() && c <= g.csize && winsect == base + c && |img| == |a|
        invariant win.Length == SS && win[..] == ZeroSector()
        invariant ZeroedUpTo(g, a, img, base, c)
        invariant fat == old(fat)
      {
        ghost var m := img;
        PutWindow();
        SetWinsect(winsect + 1);
        ZeroOneMore(g, a, m, img, base, c);
        c := c + 1;
      }
      SetWinsect(winsect - c);
      AllZeroed(g, a, img, base, g.csize);
      FirstZeroed(g, a, img, base, g.csize);
      DetachedAt(base);
      AttachedIsValid();
    }

    method SetWinsect(s: nat)
      requires Detached() && s < DWORD_SIZE
      modifies this`winsect
      ensures Detached() && winsect == s
    {
      winsect := s;
    }

    /** `mem_set` of the whole window. */
    method MemClear()
      requires Detached()
      modifies win
      ensures Detached() && win.Length == SS && win[..] == ZeroSector()
    {
      forall i | 0 <= i < win.Length {
        win[i] := 0;
      }
    }

    /** Builds a whole sector in the window. */
    method MemBuild(m: Sector)
      requires Detached()
      modifies win
      ensures Detached() && win.Length == SS && win[..] == m
    {
      SpliceAll(win[..], m);
      MemCpy(win, 0, m);
    }

    /** Only the content of its sector makes a scratch window valid. */
    lemma DetachedIsValid()
      requires Detached() && winsect < |img| && !InMirror(g, winsect)
      ensures Valid() <==> win[..] == img[winsect]
    {
      if win[..] == img[winsect] {
        CleanView(disk, g, winsect, win[..]);
      }
    }

    /** Valid with the content `m` of the window, whatever the window holds by now. */
    ghost predicate Scribbled(m: Sector)
      reads this
    {
      && Fits(g, |disk|) && win.Length == SS && winsect < |disk| && winsect < DWORD_SIZE && !InMirror(g, winsect)
      && (!wflag ==> disk[winsect] == m)
      && (mirrored ==> MirrorOk())
      && img == LogicalOf(disk, g, winsect, m)
      && fat == FatMap(img, g)
      && lastClust < DWORD_SIZE && freeClust < DWORD_SIZE
    }

    lemma ReadyToScribble()
      requires Valid() && winsect < |img|
      ensures win.Length == SS && Scribbled(win[..])
    {
    }

    /** Marks the window dirty after its content was changed, outside the FAT. */
    method Touch(ghost m: Sector)
      requires Scribbled(m) && g.fatbase + FatSectors(g) <= winsect
      modifies this`wflag, this`img
      ensures Valid() && winsect < |old(img)| && img == old(img)[winsect := win[..]]
    {
      wflag := true;
      ghost var a := img;
      img := a[winsect := win[..]];
      Rescribbled(disk, g, winsect, m, win[..]);
      DataWriteKeepsFat(a, img, g);
    }
  }
}
