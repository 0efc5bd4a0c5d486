/**
 Directory objects: the position in the table, and the search, allocation, registration
 and removal of entries through the volume's window.
 */
module DirModel {
  import opened Bits
  import opened Layout
  import opened Chains
  import opened FileImage
  import opened DirTable
  import opened DirWhole
  import opened Lfn
  import opened DirScan
  import opened DirNames
  import opened NumName
  import opened VolumeModel

  /** The `k`-th numbered name is the first that no short name in the table has. */
  ghost predicate Chosen(up: Upper, src: seq<Byte>, lfn: seq<Wchar>, es: seq<DirEntry>, fn: seq<Byte>, k: nat)
    requires |src| == 11 && 0 in lfn
  {
    && 1 <= k < 100 && fn == Candidate(src, lfn, k) && NotThere(up, fn, lfn, es)
    && forall i: nat :: 1 <= i < k ==> !NotThere(up, Candidate(src, lfn, i), lfn, es)
  }

  /** The first `k` numbered names are taken. */
  ghost predicate AllTaken(up: Upper, src: seq<Byte>, lfn: seq<Wchar>, es: seq<DirEntry>, k: nat)
    requires |src| == 11 && 0 in lfn && k < 0x1_0000
  {
    forall i: nat :: 1 <= i <= k ==> !NotThere(up, Candidate(src, lfn, i), lfn, es)
  }

  lemma NothingTaken(up: Upper, src: seq<Byte>, lfn: seq<Wchar>, es: seq<DirEntry>)
    requires |src| == 11 && 0 in lfn
    ensures AllTaken(up, src, lfn, es, 0)
  {
  }

  lemma TakenNext(up: Upper, src: seq<Byte>, lfn: seq<Wchar>, es: seq<DirEntry>, fn: seq<Byte>, k: nat)
    requires |src| == 11 && 0 in lfn && 1 <= k < 100 && AllTaken(up, src, lfn, es, k - 1)
    requires fn == Candidate(src, lfn, k)
    ensures if NotThere(up, fn, lfn, es) then Chosen(up, src, lfn, es, fn, k) else AllTaken(up, src, lfn, es, k)
  {
    hide NotThere, Candidate;
  }

  /** There is no run of `nent` free entries, and the table cannot be stretched. */
  ghost predicate NoRoom(F: FatSeq, xs: seq<nat>, es: seq<DirEntry>, nent: nat) {
    && (forall j: nat :: !FreeRun(es, nent, j))
    && (NoneFree(F) || xs == [] || |es| == MAX_INDEX)
  }

  lemma NoRoomIs(F: FatSeq, xs: seq<nat>, es: seq<DirEntry>, nent: nat)
    requires forall j: nat :: !FreeRun(es, nent, j)
    requires NoneFree(F) || xs == [] || |es| == MAX_INDEX
    ensures NoRoom(F, xs, es, nent)
  {
  }

  class Dir {
    const fs: Volume
    const up: Upper                 // ff_wtoupper
    const sclust: nat               // table start cluster, 0: the root
    var index: nat                  // current entry
    var clust: nat                  // its cluster, 0: static table
    var sect: nat                   // its sector
    var ofs: nat                    // its offset in the window
    ghost var xs: seq<nat>          // the clusters of the table, none: static table

    /** The table is well formed. */
    ghost predicate Valid()
      reads this`xs, fs, fs.win
    {
      && fs.Valid() && NoOnes(fs.fat) && GoodTable(fs.g, fs.fat, xs, |fs.img|)
      && StartsAt(fs.g, sclust, xs) && UpperOk(up)
    }

    /** The object is at entry `k`. */
    ghost predicate At(k: nat)
      reads this`index, this`clust, this`sect, this`ofs, this`xs
    {
      && k < Reach(fs.g, xs) && index == k && clust == EntryCluster(fs.g, xs, k)
      && sect == EntrySector(fs.g, xs, k) && ofs == EntryOffset(k)
    }

    ghost function Table(): (r: seq<DirEntry>)
      reads this`xs, fs`img
      ensures |r| == Reach(fs.g, xs)
    {
      Entries(fs.img, fs.g, xs)
    }

    lemma Facts()
      requires Valid()
      ensures fs.Valid() && NoOnes(fs.fat) && GoodTable(fs.g, fs.fat, xs, |fs.img|)
      ensures StartsAt(fs.g, sclust, xs) && UpperOk(up) && |fs.fat| == fs.g.nFatent
      ensures IsPow2(fs.g.csize) && 1 <= fs.g.csize <= 128 && 3 <= fs.g.nFatent <= 0x0FFF_FFFF && 1 <= fs.g.fatbase
      ensures xs != [] ==> IsChain(fs.fat, xs)
    {
    }

    lemma IsValid()
      requires fs.Valid() && NoOnes(fs.fat) && GoodTable(fs.g, fs.fat, xs, |fs.img|)
      requires StartsAt(fs.g, sclust, xs) && UpperOk(up)
      ensures Valid()
    {
    }

    lemma IsAt(k: nat)
      requires k < Reach(fs.g, xs) && index == k && clust == EntryCluster(fs.g, xs, k)
      requires sect == EntrySector(fs.g, xs, k) && ofs == EntryOffset(k)
      ensures At(k)
    {
    }

    lemma AtFacts(k: nat)
      requires At(k)
      ensures k < Reach(fs.g, xs) && index == k && clust == EntryCluster(fs.g, xs, k)
      ensures sect == EntrySector(fs.g, xs, k) && ofs == EntryOffset(k)
    {
    }

    constructor (fs: Volume, up: Upper, sclust: nat, ghost xs: seq<nat>)
      requires fs.Valid() && NoOnes(fs.fat) && GoodTable(fs.g, fs.fat, xs, |fs.img|) && StartsAt(fs.g, sclust, xs)
      requires UpperOk(up)
      ensures Valid() && this.fs == fs && this.sclust == sclust && this.xs == xs
    {
      this.fs, this.up := fs, up;
      this.sclust := sclust;
      this.xs := xs;
      index, clust, sect, ofs := 0, 0, 0, 0;
    }

    // ---- dir_sdi ----

    /** `dir_sdi`: goes to entry `idx`, from the start of the table. */
    method Sdi(idx: nat) returns (res: FResult)
      requires Valid() && idx < MAX_INDEX
      modifies this`index, this`clust, this`sect, this`ofs, fs`wflag, fs`winsect, fs`disk, fs.win
      ensures Valid() && res == if idx < TableSize(fs.g, xs) then FR_OK else FR_INT_ERR
      ensures res == FR_OK ==> At(idx)
    {
      hide *;
      Facts();
      TableSizes();
      StartFacts(fs.g, sclust, xs);
      index := idx;
      var clst := sclust;
      if clst == 1 || clst >= fs.g.nFatent {
        return FR_INT_ERR;
      }
      if clst == 0 && fs.g.fsType == Fat32 {
        clst := fs.g.dirbase;
      }
      var rest, s := idx, 0;
      if clst == 0 {
        StaticEntry(fs.g, idx);
        StaticStart(fs.g, fs.fat, |fs.img|);
        if idx >= fs.g.nRootdir {
          return FR_INT_ERR;
        }
        s := fs.g.dirbase;
      } else {
        var ok;
        ok, clst, rest := Follow(clst, idx);
        if !ok {
          return FR_INT_ERR;
        }
        ClusterStart(fs.g, fs.fat, xs, |fs.img|, clst);
        s := Clust2Sect(fs.g, clst);
      }
      clust := clst;
      ReachIs(fs.g, xs);
      EntryInDisk(fs.g, fs.fat, xs, |fs.img|, idx);
      assert s != 0;
      sect := s + rest / PER_SECTOR;
      ofs := rest % PER_SECTOR * DIRE;
      IsAt(idx);
      res := FR_OK;
    }

    /** The walk along the chain in `dir_sdi`. */
    method Follow(first: nat, idx: nat) returns (ok: bool, clst: nat, rest: nat)
      requires Valid() && xs != [] && first == xs[0]
      modifies fs`wflag, fs`winsect, fs`disk, fs.win
      ensures Valid() && ok == (idx < TableSize(fs.g, xs))
      ensures ok ==> 2 <= clst < fs.g.nFatent && EntryCluster(fs.g, xs, idx) == clst
      ensures ok ==> EntrySector(fs.g, xs, idx) == Base(fs.g, clst) + rest / PER_SECTOR
      ensures ok ==> EntryOffset(idx) == rest % PER_SECTOR * DIRE
    {
      hide *;
      Facts();
      TableSizes();
      PerClusterIs(fs.g);
      var ic := PER_SECTOR * fs.g.csize;
      clst, rest := first, idx;
      ghost var j := 0;
      WalkStarts(fs.g, xs, idx);
      while rest >= ic
        invariant Valid() && WalkedTo(fs.g, xs, idx, j, clst, rest)
        decreases rest
      {
        Facts();
        WalkGoesOn(fs.g, fs.fat, xs, idx, j, clst, rest);
        clst := fs.GetFat(clst);
        IsValid();
        if clst < 2 || clst >= fs.g.nFatent {
          return false, clst, rest;
        }
        rest, j := rest - ic, j + 1;
      }
      Facts();
      WalkEnds(fs.g, fs.fat, xs, idx, j, clst, rest);
      ok := true;
    }

    // ---- dir_next ----

    /** Stretches the table by a zeroed cluster. 0: no free cluster. */
    method GrowTable() returns (clst: nat)
      requires Valid() && xs != [] && clust == xs[|xs| - 1]
      modifies this`xs, fs`wflag, fs`winsect, fs`disk, fs`img, fs`fat, fs.win
      modifies fs`freeClust, fs`fsiDirty, fs`lastClust
      ensures Valid() && Extended(old(Table()), Table()) && SameOutsideTable(fs.g, xs, old(fs.img), fs.img)
      ensures FatGrown(old(fs.fat), fs.fat, old(xs), xs)
      ensures if clst == 0 then xs == old(xs) && NoneFree(fs.fat)
        else xs == old(xs) + [clst] && 2 <= clst < fs.g.nFatent
      ensures old(fs.Counted()) ==> fs.Counted()
    {
      hide *;
      Facts();
      fs.EndMark();
      ghost var F, a, ys := fs.fat, fs.img, xs;
      TableIs();
      clst := fs.CreateChain(clust);
      fs.CountedIs();
      StretchChain(F, fs.fat, xs, |xs| - 1, old(fs.lastClust), clst, Trunc(fs.g.fsType, EOC));
      StretchedLast(xs, clst);
      if clst == 0 {
        EntriesSame(fs.g, F, xs, a, fs.img);
        SameSizes(a, fs.img, fs.g);
        ExtendedRefl(Table());
        TableIs();
        IsValid();
      } else {
        InChainRange(fs.fat, xs + [clst], |xs|);
        ghost var m := fs.img;
        fs.ZeroCluster(clst);
        ZeroedAfter(fs.g, a, m, fs.img, Base(fs.g, clst), fs.g.csize);
        xs := xs + [clst];
        TableGrown(fs.g, F, fs.fat, ys, clst, a, fs.img);
        StillStarts(fs.g, sclust, ys, clst);
        TableIs();
        IsValid();
        fs.CountedIs();
      }
    }

    lemma TableIs()
      ensures Table() == Entries(fs.img, fs.g, xs)
    {
    }

    /** At the end of a cluster: the next cluster of the table. */
    method NextInChain(stretch: bool, ghost i: nat) returns (res: FResult)
      requires Valid() && xs != [] && 0 < i < MAX_INDEX && i % PER_SECTOR == 0 && Off(fs.g, i / PER_SECTOR) == 0
      requires i - 1 < TableSize(fs.g, xs) && clust == EntryCluster(fs.g, xs, i - 1)
      modifies this`xs, this`clust, this`sect, fs`wflag, fs`winsect, fs`disk, fs`img, fs`fat, fs.win
      modifies fs`freeClust, fs`fsiDirty, fs`lastClust
      ensures Valid() && Extended(old(Table()), Table()) && SameOutsideTable(fs.g, xs, old(fs.img), fs.img)
      ensures FatGrown(old(fs.fat), fs.fat, old(xs), xs)
      ensures i < old(TableSize(fs.g, xs)) || !stretch ==>
        xs == old(xs) && fs.img == old(fs.img) && fs.fat == old(fs.fat) && fs.freeClust == old(fs.freeClust)
      ensures if i < old(TableSize(fs.g, xs)) then res == FR_OK
        else if !stretch then res == FR_NO_FILE
        else (res == FR_DENIED && xs == old(xs) && NoneFree(fs.fat)) || (res == FR_OK && |xs| == |old(xs)| + 1)
      ensures old(xs) <= xs
      ensures res == FR_OK ==>
        i < TableSize(fs.g, xs) && clust == EntryCluster(fs.g, xs, i) && sect == EntrySector(fs.g, xs, i)
      ensures res == FR_OK ==> EntryOffset(i) == 0
      ensures old(fs.Counted()) ==> fs.Counted()
    {
      hide *;
      Facts();
      TableSizes();
      ghost var F, ys := fs.fat, xs;
      ExtendedRefl(Table());
      SameOutsideTableRefl(fs.g, xs, fs.img);
      FatGrownRefl(F, xs);
      EntryInNext(fs.g, xs, i);
      ghost var m := Idx(fs.g, i / PER_SECTOR);
      InChainRange(F, xs, m - 1);
      LinkAt(F, xs, m - 1);
      var clst := fs.GetFat(clust);
      IsValid();
      assert clst > 1;
      if clst >= fs.g.nFatent {
        if !stretch {
          return FR_NO_FILE;
        }
        clst := GrowTable();
        if clst == 0 {
          return FR_DENIED;
        }
        Facts();
        GrownSize(fs.g, ys, clst);
        EntryInNext(fs.g, xs, i);
      }
      ClusterStart(fs.g, fs.fat, xs, |fs.img|, clst);
      clust := clst;
      sect := Clust2Sect(fs.g, clst);
      res := FR_OK;
    }

    /** `dir_next`: goes to the next entry, if there is one, or with `stretch` can be. */
    method Next(stretch: bool) returns (res: FResult)
      requires Valid() && At(index)
      modifies this`xs, this`index, this`clust, this`sect, this`ofs, fs`wflag, fs`winsect, fs`disk, fs`img, fs`fat
      modifies fs.win
      modifies fs`freeClust, fs`fsiDirty, fs`lastClust
      ensures Valid() && Extended(old(Table()), Table()) && SameOutsideTable(fs.g, xs, old(fs.img), fs.img)
      ensures FatGrown(old(fs.fat), fs.fat, old(xs), xs) && old(xs) <= xs && (xs == [] <==> old(xs) == [])
      ensures old(index) + 1 < |old(Table())| ==> res == FR_OK
      ensures old(index) + 1 == |old(Table())| && (!stretch || old(xs) == [] || |old(Table())| == MAX_INDEX) ==>
        res == FR_NO_FILE
      ensures old(index) + 1 == |old(Table())| && stretch && old(xs) != [] && |old(Table())| < MAX_INDEX ==>
        (res == FR_DENIED && NoneFree(fs.fat)) || (res == FR_OK && |xs| == |old(xs)| + 1)
      ensures res != FR_OK || old(index) + 1 < |old(Table())| ==> xs == old(xs)
      ensures !stretch || old(index) + 1 < |old(Table())| ==>
        fs.img == old(fs.img) && fs.fat == old(fs.fat) && fs.freeClust == old(fs.freeClust)
      ensures res == FR_OK ==> At(old(index) + 1)
      ensures old(fs.Counted()) ==> fs.Counted()
    {
      hide *;
      Facts();
      TableSizes();
      ghost var k, ys := index, xs;
      AtFacts(k);
      ReachIs(fs.g, xs);
      ExtendedRefl(Table());
      SameOutsideTableRefl(fs.g, xs, fs.img);
      FatGrownRefl(fs.fat, xs);
      EntryInDisk(fs.g, fs.fat, xs, |fs.img|, k);
      var i := index + 1;
      IndexWraps(i);
      if And(i, 0xFFFF) == 0 || sect == 0 {
        return FR_NO_FILE;
      }
      if i % PER_SECTOR == 0 {
        sect := sect + 1;
        ClusterOrStatic(fs.g, fs.fat, xs, |fs.img|, k);
        SectorOffset(fs.g, i / PER_SECTOR);
        if clust == 0 {
          NextSector(fs.g, xs, i);
          StaticEntry(fs.g, i);
          if i >= fs.g.nRootdir {
            return FR_NO_FILE;
          }
        } else if And(i / PER_SECTOR, fs.g.csize - 1) == 0 {
          res := NextInChain(stretch, i);
          if res != FR_OK {
            return;
          }
        } else {
          NextSector(fs.g, xs, i);
        }
      } else {
        NextInSector(fs.g, xs, i);
        NotLastInSector(fs.g, fs.fat, xs, |fs.img|, i);
      }
      index := i;
      ofs := i % PER_SECTOR * DIRE;
      OffsetIs(i);
      ReachIs(fs.g, xs);
      IsAt(i);
      res := FR_OK;
    }

    // ---- one entry ----

    /** Brings the current entry into the window. */
    method Load() returns (e: DirEntry)
      requires Valid() && At(index)
      modifies fs`wflag, fs`winsect, fs`disk, fs.win
      ensures Valid() && Shows() && IsEntry(index, e)
    {
      hide *;
      Facts();
      TableSizes();
      AtFacts(index);
      SectorSize();
      EntryInDisk(fs.g, fs.fat, xs, |fs.img|, index);
      OffsetFits(index);
      TableIs();
      EntryOf(fs.img, fs.g, xs, index);
      fs.Facts();
      fs.MoveWindow(sect);
      IsValid();
      EntryOfSector(fs.win[..], ofs);
      e := fs.win[ofs..ofs + DIRE];
      TableIs();
      ItShows();
      ItIsEntry(index, e);
    }

    /** The window shows the sector of the current entry. */
    ghost predicate Shows()
      reads this`sect, this`ofs, fs`winsect, fs`img, fs.win
    {
      && sect < |fs.img| && fs.winsect == sect && fs.win.Length == SS && ofs + DIRE <= SS
      && fs.win[..] == fs.img[sect]
    }

    lemma ItShows()
      requires sect < |fs.img| && fs.winsect == sect && fs.win.Length == SS && ofs + DIRE <= SS
      requires fs.win[..] == fs.img[sect]
      ensures Shows()
    {
    }

    lemma ShowsFacts()
      requires Shows()
      ensures sect < |fs.img| && fs.winsect == sect && fs.win.Length == SS && ofs + DIRE <= SS
      ensures fs.win[..] == fs.img[sect]
    {
    }

    ghost predicate IsEntry(k: nat, e: DirEntry)
      reads this`xs, fs`img
    {
      k < |Table()| && Table()[k] == e
    }

    lemma ItIsEntry(k: nat, e: DirEntry)
      requires k < |Table()| && Table()[k] == e
      ensures IsEntry(k, e)
    {
    }

    lemma EntryFacts(k: nat, e: DirEntry)
      requires IsEntry(k, e)
      ensures k < |Table()| && Table()[k] == e
    {
    }

    /** The window holds the table sector of the current entry with that entry replaced. */
    method Replace(ghost m: Sector, ghost e: DirEntry)
      requires TableKnown() && At(index) && fs.Scribbled(m) && fs.winsect == sect < |fs.img| && fs.img[sect] == m
      requires fs.win.Length == SS && ofs + DIRE <= SS && fs.win[..] == PutEntry(m, ofs, e)
      modifies fs`wflag, fs`img
      ensures Valid() && index < |old(Table())| && Table() == old(Table())[index := e]
      ensures SameOutsideTable(fs.g, xs, old(fs.img), fs.img)
    {
      hide *;
      KnownFacts();
      AtFacts(index);
      ghost var a := fs.img;
      ReachIs(fs.g, xs);
      EntryInDisk(fs.g, fs.fat, xs, |fs.img|, index);
      EntryReplaced(a, fs.g, fs.fat, xs, index, e);
      PutInTable(a, fs.g, fs.fat, xs, index, PutEntry(m, ofs, e));
      TableIs();
      fs.Touch(m);
      TableIs();
      IsValid();
    }

    /** Valid, but for the volume. */
    ghost predicate TableKnown()
      reads this`xs, fs
    {
      && NoOnes(fs.fat) && GoodTable(fs.g, fs.fat, xs, |fs.img|) && StartsAt(fs.g, sclust, xs) && UpperOk(up)
    }

    lemma KnownFacts()
      requires TableKnown()
      ensures NoOnes(fs.fat) && GoodTable(fs.g, fs.fat, xs, |fs.img|) && StartsAt(fs.g, sclust, xs) && UpperOk(up)
    {
    }

    lemma ValidIsKnown()
      requires Valid()
      ensures TableKnown() && fs.Valid()
    {
    }

    // ---- dir_find ----

    /** One turn of the loop of `dir_find`. */
    method LookAt(q: Query, e: DirEntry, i: nat, st: State) returns (v: Verdict)
      requires UpperOk(up) && GoodQuery(q)
      ensures v == Look(up, q, e, i, st)
    {
      hide AgreesAt, SumOf, Open;
      var c := e[0];
      if c == 0 {
        return End;
      }
      var a := Attr(e);
      if c == DDEM || (a / 8 % 2 == 1 && a != AM_LFN as nat) {
        return Go(State(0xFF, st.sum, NO_LFN));
      }
      if a == AM_LFN as nat {
        if !q.hasLfn {
          return Go(st);
        }
        var s := st;
        if IsLast(e) {
          s := State(Order(e), e[13], i);
        }
        var same := false;
        if Order(e) == s.ord && s.sum == e[13] {
          same := CmpLfn(up, q.lfn, e);
        }
        v := Go(State(if same then s.ord - 1 else 0xFF, s.sum, s.start));
      } else {
        var sum := 0;
        if st.ord == 0 {
          sum := SumSfn(e);
        }
        if st.ord == 0 && st.sum == sum {
          return Match;
        }
        if !q.loss && e[..11] == q.fn {
          return Match;
        }
        v := Go(State(0xFF, st.sum, NO_LFN));
      }
    }

    /** `dir_find`: the object is left at the entry found; `start` is where its long name starts. */
    method Find(q: Query) returns (res: FResult, start: nat)
      requires Valid() && GoodQuery(q)
      modifies this`xs, this`index, this`clust, this`sect, this`ofs, fs`wflag, fs`winsect, fs`disk, fs`img, fs`fat
      modifies fs.win
      modifies fs`freeClust, fs`fsiDirty, fs`lastClust
      ensures Valid() && xs == old(xs) && fs.img == old(fs.img) && fs.fat == old(fs.fat)
      ensures fs.freeClust == old(fs.freeClust)
      ensures match DirScan.Find(up, q, Table())
        case NoFile => res == FR_NO_FILE
        case At(k, s) => res == FR_OK && At(k) && index == k && start == s
      // the first short entry in use that carries the name, or there is none
      ensures if res == FR_OK then Named(up, q, Table(), index) else res == FR_NO_FILE && Unnamed(up, q, Table())
    {
      hide *;
      Facts();
      TableSizes();
      NotEmpty(fs.g, fs.fat, xs, |fs.img|);
      ReachIs(fs.g, xs);
      ghost var T := Table();
      StartFind(up, q, T);
      FindIff(up, q, T);
      StartIs();
      res := Sdi(0);
      AtFacts(0);
      TableIs();
      start := NO_LFN;
      var st := State(0xFF, 0xFF, NO_LFN);
      var going := true;
      while going
        invariant Valid() && xs == old(xs) && fs.img == old(fs.img) && fs.fat == old(fs.fat)
        invariant fs.freeClust == old(fs.freeClust)
        invariant Table() == T && |T| <= MAX_INDEX
        invariant going ==> At(index) && index < |T| && DirScan.Find(up, q, T) == FindFrom(up, q, T, index, st)
        invariant !going ==> match DirScan.Find(up, q, T)
          case NoFile => res == FR_NO_FILE
          case At(k, s) => res == FR_OK && At(k) && index == k && start == s
        decreases going, MAX_INDEX - index
      {
        ghost var i := index;
        Facts();
        var e := Load();
        EntryFacts(i, e);
        var v := LookAt(q, e, index, st);
        FindOnce(up, q, T, i, st);
        match v {
          case End =>
            res, going := FR_NO_FILE, false;
          case Match =>
            res, start, going := FR_OK, st.start, false;
          case Go(s) =>
            st := s;
            res := Next(false);
            AtEnd(up, q, T, i + 1, st);
            if res == FR_OK {
              AtFacts(i + 1);
            } else {
              going := false;
            }
        }
      }
    }

    lemma StartIs()
      ensures START == State(0xFF, 0xFF, NO_LFN)
    {
    }

    // ---- dir_alloc ----

    /** `dir_alloc`: goes to the last entry of the first run of `nent` free entries, stretching
        the table if needed. Denied only if the table cannot hold such a run. */
    method Alloc(nent: nat) returns (res: FResult)
      requires Valid() && nent >= 1
      modifies this`xs, this`index, this`clust, this`sect, this`ofs, fs`wflag, fs`winsect, fs`disk, fs`img, fs`fat
      modifies fs.win
      modifies fs`freeClust, fs`fsiDirty, fs`lastClust
      ensures Valid() && Extended(old(Table()), Table()) && SameOutsideTable(fs.g, xs, old(fs.img), fs.img)
      ensures FatGrown(old(fs.fat), fs.fat, old(xs), xs) && old(xs) <= xs && (xs == [] <==> old(xs) == [])
      ensures res == FR_OK || res == FR_DENIED
      ensures res == FR_OK ==> At(index) && FirstRun(Table(), nent, index)
      ensures res == FR_DENIED ==> forall j: nat :: !FreeRun(Table(), nent, j)
      ensures res == FR_DENIED ==> NoneFree(fs.fat) || xs == [] || |Table()| == MAX_INDEX
      ensures old(fs.Counted()) ==> fs.Counted()
    {
      hide *;
      Facts();
      TableSizes();
      NotEmpty(fs.g, fs.fat, xs, |fs.img|);
      ReachIs(fs.g, xs);
      ghost var T0, a, F, ys := Table(), fs.img, fs.fat, xs;
      ExtendedRefl(T0);
      SameOutsideTableRefl(fs.g, xs, a);
      FatGrownRefl(F, xs);
      res := Sdi(0);
      AtFacts(0);
      TableIs();
      var n := 0;
      CountingStarts(T0, nent);
      while res == FR_OK
        invariant Valid() && Extended(T0, Table()) && SameOutsideTable(fs.g, xs, a, fs.img)
        invariant FatGrown(F, fs.fat, ys, xs) && ys <= xs && (xs == [] <==> ys == [])
        invariant res == FR_OK ==> At(index) && Counting(Table(), nent, n, index)
        invariant res != FR_OK ==> res == FR_NO_FILE || res == FR_DENIED
        invariant res != FR_OK ==> forall j: nat :: !FreeRun(Table(), nent, j)
        invariant res != FR_OK ==> NoneFree(fs.fat) || xs == [] || |Table()| == MAX_INDEX
        invariant old(fs.Counted()) ==> fs.Counted()
        decreases res == FR_OK, MAX_INDEX - index
      {
        AtFacts(index);
        ghost var i, m, T, M, zs := index, fs.img, Table(), fs.fat, xs;
        var e := Load();
        EntryFacts(i, e);
        FreeIs(e);
        CountingGoesOn(T, nent, n, i);
        if e[0] == DDEM || e[0] == 0 {
          n := n + 1;
          if n == nent {
            return;
          }
        } else {
          n := 0;
        }
        CountingAtEnd(T, nent, n, i + 1);
        res := Next(true);
        ExtendedTrans(T0, T, Table());
        SameOutsideTableTrans(fs.g, zs, xs, a, m, fs.img);
        FatGrownTrans(F, M, fs.fat, ys, zs, xs);
        CountingExtended(T, Table(), nent, n, i + 1);
        AtMost(T);
        if res == FR_OK {
          AtFacts(i + 1);
          ReachIs(fs.g, xs);
          TableIs();
        }
      }
      if res == FR_NO_FILE {
        res := FR_DENIED;
      }
    }

    lemma AtMost(T: seq<DirEntry>)
      ensures |Table()| <= MAX_INDEX
    {
    }

    // ---- dir_register ----

    /** Stores fragment `ord` of the long name in the current entry. */
    method StoreFragment(lfn: seq<Wchar>, ghost n: nat, ord: nat, sum: Byte) returns (ghost e: DirEntry)
      requires Valid() && At(index) && NameOk(lfn, n) && 1 <= ord < LLEF && 13 * (ord - 1) < n
      modifies fs`wflag, fs`winsect, fs`disk, fs`img, fs.win
      ensures Valid() && IsFragment(e, lfn, n, ord, sum)
      ensures index < |old(Table())| && Table() == old(Table())[index := e]
      ensures SameOutsideTable(fs.g, xs, old(fs.img), fs.img)
    {
      hide *;
      SectorSize();
      TableSizes();
      NameFacts(lfn, n);
      var before := Load();
      ShowsFacts();
      ValidIsKnown();
      fs.ReadyToScribble();
      ghost var m := fs.win[..];
      TableIs();
      FitLfn(lfn, n, fs.win, ofs, ord, sum);
      e := fs.win[ofs..ofs + DIRE];
      WindowPut(m, fs.win[..], ofs, e);
      TableIs();
      Replace(m, e);
    }

    /** Stores a short name in the current entry. */
    method StoreShort(fn: seq<Byte>, nt: Byte)
      requires Valid() && At(index) && |fn| == 11
      modifies fs`wflag, fs`winsect, fs`disk, fs`img, fs.win
      ensures Valid() && index < |old(Table())| && Table() == old(Table())[index := ShortEntry(fn, nt)]
      ensures SameOutsideTable(fs.g, xs, old(fs.img), fs.img)
    {
      hide *;
      SectorSize();
      TableSizes();
      var before := Load();
      ShowsFacts();
      ValidIsKnown();
      fs.ReadyToScribble();
      ghost var m := fs.win[..];
      TableIs();
      MemCpy(fs.win, ofs, seq<Byte>(32, i => 0));
      ghost var x := fs.win[..];
      MemCpy(fs.win, ofs, fn);
      ghost var y := fs.win[..];
      fs.win[ofs + 12] := nt;
      ShortInWindow(m, x, y, ofs, fn, nt);
      TableIs();
      Replace(m, ShortEntry(fn, nt));
    }

    /** The loop that stores the fragments, the last one first, in the entries before `j`. */
    method StoreFragments(lfn: seq<Wchar>, ghost n: nat, nent: nat, sum: Byte, j: nat)
      requires Valid() && NameOk(lfn, n) && nent == Fragments(n) + 1 && nent <= j + 1 && j < |Table()| && 1 <= n
      modifies this`xs, this`index, this`clust, this`sect, this`ofs, fs`wflag, fs`winsect, fs`disk, fs`img, fs`fat
      modifies fs.win
      modifies fs`freeClust, fs`fsiDirty, fs`lastClust
      ensures Valid() && At(j) && xs == old(xs) && fs.fat == old(fs.fat) && fs.freeClust == old(fs.freeClust)
      ensures FragmentsPut(old(Table()), Table(), lfn, n, sum, nent, j, j)
      ensures SameOutsideTable(fs.g, xs, old(fs.img), fs.img)
    {
      hide *;
      TableSizes();
      FragmentCount(n);
      NameFacts(lfn, n);
      ghost var T, a := Table(), fs.img;
      SameOutsideTableRefl(fs.g, xs, a);
      ReachIs(fs.g, xs);
      TableIs();
      NonePut(T, lfn, n, sum, nent, j);
      var res := Sdi(j + 1 - nent);
      AtFacts(j + 1 - nent);
      TableIs();
      var ord: nat := nent - 1;
      while ord > 0
        invariant Valid() && ord < nent && At(j - ord) && index == j - ord && xs == old(xs)
        invariant FragmentsPut(T, Table(), lfn, n, sum, nent, j, j - ord)
        invariant SameOutsideTable(fs.g, xs, a, fs.img)
        invariant fs.fat == old(fs.fat) && fs.freeClust == old(fs.freeClust)
      {
        ghost var S, m := Table(), fs.img;
        ghost var e := StoreFragment(lfn, n, ord, sum);
        OneMorePut(T, S, e, lfn, n, sum, nent, j, j - ord);
        SameOutsideTableTrans(fs.g, xs, xs, a, m, fs.img);
        FragmentsPutSize(T, Table(), lfn, n, sum, nent, j, j - ord + 1);
        ghost var c := fs.freeClust;
        res := Step();
        ord := ord - 1;
        AtFacts(j - ord);
      }
    }

    /** `dir_next` without stretching, inside the table. */
    method Step() returns (res: FResult)
      requires Valid() && At(index) && index + 1 < |Table()|
      modifies this`xs, this`index, this`clust, this`sect, this`ofs, fs`wflag, fs`winsect, fs`disk, fs`img, fs`fat
      modifies fs.win
      modifies fs`freeClust, fs`fsiDirty, fs`lastClust
      ensures Valid() && res == FR_OK && At(old(index) + 1) && index == old(index) + 1
      ensures xs == old(xs) && fs.img == old(fs.img) && fs.fat == old(fs.fat) && Table() == old(Table())
      ensures fs.freeClust == old(fs.freeClust)
    {
      hide *;
      TableIs();
      res := Next(false);
      AtFacts(old(index) + 1);
      TableIs();
    }

    /** Looks for a numbered name that no short name in the table has. */
    method NumberName(src: seq<Byte>, lfn: seq<Wchar>, ghost n: nat) returns (ok: bool, fn: seq<Byte>)
      requires Valid() && NameOk(lfn, n) && |src| == 11 && src[0] != 0 && src[0] != DDEM
      modifies this`xs, this`index, this`clust, this`sect, this`ofs, fs`wflag, fs`winsect, fs`disk, fs`img, fs`fat
      modifies fs.win
      modifies fs`freeClust, fs`fsiDirty, fs`lastClust
      ensures Valid() && xs == old(xs) && fs.img == old(fs.img) && fs.fat == old(fs.fat)
      ensures fs.freeClust == old(fs.freeClust)
      ensures |fn| == 11 && fn[0] != 0 && fn[0] != DDEM && 0 in lfn
      ensures if ok then NotThere(up, fn, lfn, Table()) && exists k: nat :: Chosen(up, src, lfn, Table(), fn, k)
        else AllTaken(up, src, lfn, Table(), 99)
    {
      hide *;
      NameFacts(lfn, n);
      fn, ok := src, false;
      NothingTaken(up, src, lfn, Table());
      TableIs();
      var k: nat := 1;
      while k < 100 && !ok
        invariant 1 <= k <= 100
        invariant Valid() && xs == old(xs) && fs.img == old(fs.img) && fs.fat == old(fs.fat)
        invariant fs.freeClust == old(fs.freeClust)
        invariant |fn| == 11 && fn[0] != 0 && fn[0] != DDEM
        invariant if ok then NotThere(up, fn, lfn, Table()) && exists k: nat :: Chosen(up, src, lfn, Table(), fn, k)
          else AllTaken(up, src, lfn, Table(), k - 1)
        decreases !ok, 100 - k
      {
        TableIs();
        fn := GenNumName(src, lfn, k);
        CandidateFirst(src, lfn, k);
        TildeIs();
        DdemIs();
        GoodShortQuery(lfn, fn);
        var res, start := Find(Query(false, lfn, fn, false));
        TableIs();
        NotThereIf(up, fn, lfn, Table());
        TakenNext(up, src, lfn, Table(), fn, k);
        ok := res != FR_OK;
        k := k + 1;
      }
    }

    /** The long name takes this many entries, with its short name. */
    method CountEntries(lfn: seq<Wchar>, ghost n: nat) returns (nent: nat)
      requires NameOk(lfn, n)
      ensures nent == Fragments(n) + 1
    {
      var m := 0;
      while lfn[m] != 0
        invariant m <= n
        decreases n - m
      {
        m := m + 1;
      }
      nent := (m + 25) / 13;
    }

    /** `dir_register` of the long name in `lfn`, if `long`, and the short name `src`, which
        is made a numbered one if `loss`. `es` is the table before the entries were written:
        the old one, stretched if needed. */
    method Register(src: seq<Byte>, loss: bool, long: bool, nt: Byte, lfn: seq<Wchar>, ghost n: nat)
      returns (res: FResult, fn: seq<Byte>, ghost es: seq<DirEntry>, ghost nent: nat)
      requires Valid() && NameOk(lfn, n) && 1 <= n && (loss ==> long)
      requires |src| == 11 && src[0] != 0 && src[0] != DDEM
      modifies this`xs, this`index, this`clust, this`sect, this`ofs, fs`wflag, fs`winsect, fs`disk, fs`img, fs`fat
      modifies fs.win
      modifies fs`freeClust, fs`fsiDirty, fs`lastClust
      ensures Valid() && (res == FR_OK || res == FR_DENIED)
      ensures Extended(old(Table()), es) && SameOutsideTable(fs.g, xs, old(fs.img), fs.img)
      ensures |fn| == 11 && fn[0] != 0 && fn[0] != DDEM && nent == if long then Fragments(n) + 1 else 1
      ensures if loss then res == FR_OK ==> NotThere(up, fn, lfn, old(Table())) else fn == src
      ensures 0 in lfn && (loss && res == FR_OK ==> exists k: nat :: Chosen(up, src, lfn, old(Table()), fn, k))
      ensures res == FR_DENIED ==>
        (loss && es == old(Table()) && AllTaken(up, src, lfn, es, 99)) || NoRoom(fs.fat, xs, es, nent)
      ensures res == FR_OK ==>
        At(index) && FirstRun(es, nent, index) && Registered(es, Table(), lfn, n, fn, nt, nent, index)
      ensures res != FR_OK ==> Table() == es
      ensures FatGrown(old(fs.fat), fs.fat, old(xs), xs)
      ensures old(fs.Counted()) ==> fs.Counted()
    {
      hide *;
      ghost var T0, a, F, ys := Table(), fs.img, fs.fat, xs;
      ExtendedRefl(T0);
      SameOutsideTableRefl(fs.g, xs, a);
      FatGrownRefl(F, xs);
      FragmentCount(n);
      NameFacts(lfn, n);
      fn, es, nent := src, T0, if long then Fragments(n) + 1 else 1;
      if loss {
        var ok;
        TableIs();
        ok, fn := NumberName(src, lfn, n);
        CountedStays(F);
        TableIs();
        if !ok {
          return FR_DENIED, fn, es, nent;
        }
      }
      var m := 1;
      if long {
        m := CountEntries(lfn, n);
      }
      label Allocating:
      res := Alloc(m);
      es := Table();
      if res != FR_OK {
        NoRoomIs(fs.fat, xs, es, nent);
        return;
      }
      AtFacts(index);
      TableIs();
      ghost var j, b, G, zs := index, fs.img, fs.fat, xs;
      RunFits(es, nent, j);
      NotLong(lfn, n, SumOf(fn), es, j);
      SameOutsideTableRefl(fs.g, xs, b);
      if m > 1 {
        var sum := SumSfn(fn);
        assert fn[..11] == fn;
        StoreFragments(lfn, n, m, sum, index);
        AtFacts(j);
      }
      ghost var P, c := Table(), fs.img;
      StoreShort(fn, nt);
      SameOutsideTableTrans(fs.g, zs, xs, a, b, c);
      SameOutsideTableTrans(fs.g, zs, xs, a, c, fs.img);
      AllPut(es, P, Table(), lfn, n, fn, nt, nent, j);
    }

    twostate lemma CountedStays(F: FatSeq)
      requires fs.fat == old(fs.fat) && fs.freeClust == old(fs.freeClust)
      ensures old(fs.Counted()) ==> fs.Counted()
    {
    }

    // ---- dir_remove ----

    /** Marks the current entry as deleted. */
    method Wipe() returns (ghost e: DirEntry)
      requires Valid() && At(index)
      modifies fs`wflag, fs`winsect, fs`disk, fs`img, fs.win
      ensures Valid() && IsWiped(e) && index < |old(Table())| && Table() == old(Table())[index := e]
      ensures SameOutsideTable(fs.g, xs, old(fs.img), fs.img)
    {
      hide *;
      SectorSize();
      TableSizes();
      var before := Load();
      ShowsFacts();
      ValidIsKnown();
      fs.ReadyToScribble();
      ghost var m := fs.win[..];
      TableIs();
      MemCpy(fs.win, ofs, seq<Byte>(32, i => 0));
      ghost var x := fs.win[..];
      fs.win[ofs] := DDEM;
      e := WipedInWindow(m, x, ofs);
      TableIs();
      Replace(m, e);
    }

    /** `dir_remove`: deletes the current entry and those of its long name, from `start` on. */
    method Remove(start: nat)
      requires Valid() && At(index) && (start == NO_LFN || start <= index)
      modifies this`xs, this`index, this`clust, this`sect, this`ofs, fs`wflag, fs`winsect, fs`disk, fs`img, fs`fat
      modifies fs.win
      modifies fs`freeClust, fs`fsiDirty, fs`lastClust
      ensures Valid() && xs == old(xs) && fs.fat == old(fs.fat) && fs.freeClust == old(fs.freeClust)
      ensures Removed(old(Table()), Table(), if start == NO_LFN then old(index) else start, old(index))
      ensures SameOutsideTable(fs.g, xs, old(fs.img), fs.img)
    {
      hide *;
      TableSizes();
      ReachIs(fs.g, xs);
      AtFacts(index);
      ghost var T, a := Table(), fs.img;
      SameOutsideTableRefl(fs.g, xs, a);
      var i, first := index, if start == NO_LFN then index else start;
      NoneRemoved(T, first, i);
      TableIs();
      var res := Sdi(first);
      AtFacts(first);
      TableIs();
      var going := true;
      while going
        invariant Valid() && xs == old(xs) && fs.fat == old(fs.fat) && |T| <= MAX_INDEX && i < |T|
        invariant fs.freeClust == old(fs.freeClust)
        invariant first <= index <= i && (going ==> At(index) && RemovedUpTo(T, Table(), first, index))
        invariant !going ==> RemovedUpTo(T, Table(), first, i + 1)
        invariant SameOutsideTable(fs.g, xs, a, fs.img)
        decreases going, MAX_INDEX - index
      {
        ghost var S, m := Table(), fs.img;
        ghost var e := Wipe();
        OneMoreRemoved(T, S, e, first, index);
        SameOutsideTableTrans(fs.g, xs, xs, a, m, fs.img);
        if index >= i {
          going := false;
        } else {
          res := Step();
        }
      }
      AllRemoved(T, Table(), first, i);
    }

    // ---- whole operations ----

    /** Creating an object, as `f_open` does: nothing if the name is there already, else it is
        registered, and then found where it was put. */
    method Create(src: seq<Byte>, loss: bool, long: bool, nt: Byte, lfn: seq<Wchar>, ghost n: nat)
      returns (res: FResult, there: bool, ghost es: seq<DirEntry>, ghost fn: seq<Byte>, ghost nent: nat)
      requires Valid() && NameOk(lfn, n) && 1 <= n && (loss ==> long)
      requires |src| == 11 && src[0] != 0 && src[0] != DDEM
      requires Tidy(Table()) && DistinctNames(Table())
      modifies this`xs, this`index, this`clust, this`sect, this`ofs, fs`wflag, fs`winsect, fs`disk, fs`img, fs`fat
      modifies fs.win
      modifies fs`freeClust, fs`fsiDirty, fs`lastClust
      ensures Valid() && Tidy(Table()) && DistinctNames(Table())
      ensures old(Complete(Table())) ==> Complete(Table())
      ensures Extended(old(Table()), es) && |Table()| == |es| && SameOutsideTable(fs.g, xs, old(fs.img), fs.img)
      // every entry in use stays
      ensures forall k :: 0 <= k < |es| && !IsFree(es[k]) ==> Table()[k] == es[k]
      ensures GoodQuery(Query(true, lfn, src, loss))
      ensures if there then res == FR_OK && Table() == old(Table())
        && Named(up, Query(true, lfn, src, loss), Table(), index)
        else Unnamed(up, Query(true, lfn, src, loss), old(Table()))
      ensures |fn| == 11 && fn[0] != 0 && fn[0] != DDEM && nent == if long then Fragments(n) + 1 else 1
      ensures 0 in lfn && (res == FR_OK || res == FR_DENIED)
      ensures res == FR_OK && !there ==>
        FirstRun(es, nent, index) && Registered(es, Table(), lfn, n, fn, nt, nent, index)
      ensures res == FR_OK && !there ==>
        if loss then exists k: nat :: Chosen(up, src, lfn, old(Table()), fn, k) else fn == src
      ensures res == FR_DENIED ==> Table() == es
      // too many numbered names are taken, or there is no room
      ensures res == FR_DENIED ==> (loss && AllTaken(up, src, lfn, es, 99)) || NoRoom(fs.fat, xs, es, nent)
      ensures there || (res == FR_OK && (long ==> n <= 254)) ==>
        Named(up, Query(true, lfn, src, loss), Table(), index)
      ensures old(fs.Counted()) ==> fs.Counted()
    {
      hide *;
      ghost var T0, F := Table(), fs.fat;
      NameFacts(lfn, n);
      ExtendedRefl(T0);
      SameOutsideTableRefl(fs.g, xs, fs.img);
      var q := Query(true, lfn, src, loss);
      LongQuery(q);
      es, fn, nent := T0, src, if long then Fragments(n) + 1 else 1;
      TableIs();
      var start;
      res, start := Find(q);
      CountedStays(F);
      TableIs();
      NamedIf(up, q, T0, index);
      UnnamedIff(up, q, T0);
      there := res == FR_OK;
      if there {
        return;
      }
      ghost var a := fs.img;
      var name;
      res, name, es, nent := Register(src, loss, long, nt, lfn, n);
      fn := name;
      if res == FR_OK {
        Facts();
        NotThereIf(up, fn, lfn, T0);
        CreateDone(up, q, T0, es, Table(), lfn, n, fn, nt, nent, index, long);
        CompleteCreated(T0, es, Table(), lfn, n, fn, nt, nent, index);
        AtFacts(index);
      } else {
        TidyExtended(T0, es);
        DistinctExtended(T0, es);
        CompleteStretched(T0, es);
      }
    }

    /** Deleting an object, as `f_unlink` does: the entry found goes, with its long name. */
    method Unlink(q: Query) returns (res: FResult, ghost j: nat)
      requires Valid() && GoodQuery(q)
      modifies this`xs, this`index, this`clust, this`sect, this`ofs, fs`wflag, fs`winsect, fs`disk, fs`img, fs`fat
      modifies fs.win
      modifies fs`freeClust, fs`fsiDirty, fs`lastClust
      ensures Valid() && xs == old(xs) && fs.fat == old(fs.fat)
      ensures SameOutsideTable(fs.g, xs, old(fs.img), fs.img)
      ensures if res == FR_OK then
          Named(up, q, old(Table()), j) && j < |old(Table())| && IsShort(old(Table())[j])
          && Removed(old(Table()), Table(), FirstOf(q, old(Table()), j), j)
        else res == FR_NO_FILE && Table() == old(Table()) && Unnamed(up, q, Table())
      ensures old(Tidy(Table())) ==> Tidy(Table())
      ensures old(DistinctNames(Table())) ==> DistinctNames(Table())
      ensures q.hasLfn && old(Complete(Table())) ==> Complete(Table())
      ensures fs.freeClust == old(fs.freeClust)
    {
      hide *;
      ghost var T, a := Table(), fs.img;
      SameOutsideTableRefl(fs.g, xs, a);
      TableIs();
      var start;
      res, start := Find(q);
      TableIs();
      j := index;
      NamedIf(up, q, T, index);
      UnnamedIff(up, q, T);
      if res == FR_OK {
        AtFacts(index);
        Facts();
        ReachIs(fs.g, xs);
        TableSizes();
        NoLfnIs();
        Found(up, q, T, index, start);
        Remove(start);
        TableIs();
        Deleted(up, q, T, Table(), j, start);
      }
    }
  }
}
