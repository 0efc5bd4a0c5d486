/**
 Open files: f_read, f_write, f_lseek and f_truncate over the volume, with the
 file's private one-sector buffer and its incremental cluster cursor.
 */
module FileModel {
  import opened Bits
  import opened Layout
  import opened Chains
  import opened FileImage
  import opened FileUpdate
  import opened FileSeek
  import opened FileCut
  import Clmt
  import opened VolumeModel

  class File {
    const fs: Volume
    var buf: Sector                 // private sector buffer
    const canRead: bool             // FA_READ
    const canWrite: bool            // FA_WRITE
    var dirty: bool                 // FA__DIRTY: buf is newer than the disk
    var written: bool               // FA__WRITTEN: the directory entry is out of date
    var err: FResult                // sticky abort code
    var fptr: nat
    var fsize: nat
    var sclust: nat                 // first cluster, 0: none
    var clust: nat                  // cluster of the byte before fptr
    var dsect: nat                  // sector in buf, 0: none
    var cltbl: array?<nat>          // link map of fast seek, null: none
    ghost var frags: seq<Clmt.Frag> // what the link map holds
    ghost var view: FileView        // disk, chain and buffer: what determines the bytes

    /** Everything but the cursor; `exact`: a clean buffer agrees with the disk. */
    ghost predicate Inv(exact: bool)
      reads this`dirty, this`dsect, this`sclust, this`view, this`buf, fs, fs.win
    {
      && fs.Valid() && NoOnes(fs.fat)
      && view.img == fs.img && view.g == fs.g
      && view.dirty == dirty && view.dsect == dsect && view.b == buf
      && FileOk(view, fs.fat, fs.winsect, sclust, exact)
    }

    /** The cursor, too, for a file of `size` bytes. */
    ghost predicate Ready(size: nat)
      reads this`dirty, this`dsect, this`sclust, this`view, this`fptr, this`clust, this`buf, fs, fs.win
    {
      Inv(true) && CursorOk(view, size, fptr, clust)
    }

    /** `clust` is the cluster of byte `fptr`. */
    ghost predicate Placed()
      reads this`dirty, this`dsect, this`sclust, this`view, this`fptr, this`clust, this`buf, fs, fs.win
    {
      Inv(true) && InCluster(view, fptr, clust)
    }

    ghost predicate Valid()
      reads this, fs, fs.win
    {
      Ready(fsize)
    }

    lemma ReadyFacts(size: nat)
      requires Ready(size)
      ensures Inv(true) && CursorOk(view, size, fptr, clust)
      ensures fptr <= size < DWORD_SIZE && CoversSize(view.g, view.chain, size)
      ensures view.g == fs.g && view.g.csize >= 1
    {
    }

    /** The bytes of the file. */
    ghost function Content(): (r: seq<Byte>)
      reads this`view, this`fsize
      ensures |r| == fsize
    {
      BytesFrom(view, 0, fsize)
    }

    lemma ContentFacts()
      requires Ready(fsize)
      ensures Valid() && Content() == BytesFrom(view, 0, fsize)
      ensures fptr <= fsize < DWORD_SIZE && CoversSize(view.g, view.chain, fsize) && view.g.csize >= 1
    {
    }

    lemma ValidFacts()
      requires Valid()
      ensures Ready(fsize)
    {
    }

    lemma InvFacts(exact: bool)
      requires Inv(exact)
      ensures fs.Valid() && NoOnes(fs.fat)
      ensures view.img == fs.img && view.g == fs.g && view.dirty == dirty && view.dsect == dsect && view.b == buf
      ensures FileOk(view, fs.fat, fs.winsect, sclust, exact) && GoodView(view, fs.fat)
      ensures Owner(view.g, fs.winsect) !in view.chain
      ensures IsPow2(fs.g.csize) && 1 <= fs.g.csize <= 128 && 3 <= fs.g.nFatent <= 0x0FFF_FFFF
      ensures |fs.fat| == fs.g.nFatent
      ensures dsect < |fs.img| < 0xFFFF_FFFF
    {
    }

    lemma IsInv(exact: bool)
      requires fs.Valid() && NoOnes(fs.fat)
      requires view.img == fs.img && view.g == fs.g && view.dirty == dirty && view.dsect == dsect && view.b == buf
      requires FileOk(view, fs.fat, fs.winsect, sclust, exact)
      ensures Inv(exact)
    {
    }

    lemma StretchFacts()
      requires fs.Valid()
      ensures fs.g.fatbase + FatSectors(fs.g) <= fs.g.database
      ensures 2 <= |fs.fat| <= Trunc(fs.g.fsType, EOC)
    {
    }

    lemma PlacedFacts()
      requires Placed()
      ensures Inv(true) && InCluster(view, fptr, clust)
      ensures view.img == fs.img && view.g == fs.g && view.dirty == dirty && view.dsect == dsect && view.b == buf
    {
    }

    lemma IsPlaced()
      requires Inv(true) && InCluster(view, fptr, clust)
      ensures Placed()
    {
    }

    lemma IsReady(size: nat)
      requires Inv(true) && CursorOk(view, size, fptr, clust)
      ensures Ready(size)
    {
    }

    /** The link map is that of the chain. */
    ghost predicate MapCurrent()
      reads this`frags, this`view
    {
      Clmt.Encodes(frags, view.chain)
    }

    /** The link map holds its fragments; it is that of the chain, or was made when there was none
        and one cluster has come since. */
    ghost predicate MapOk()
      reads this`cltbl, this`frags, this`view, cltbl
    {
      cltbl != null ==> Clmt.Holds(cltbl[..], frags) && (MapCurrent() || (frags == [] && |view.chain| == 1))
    }

    lemma MapFacts()
      requires MapOk() && cltbl != null
      ensures Clmt.Holds(cltbl[..], frags)
      ensures MapCurrent() || (frags == [] && |view.chain| == 1)
      ensures MapCurrent() ==> Clmt.Encodes(frags, view.chain)
    {
    }

    /** The map stays while the chain does. */
    twostate lemma MapKept()
      requires old(MapOk()) && cltbl == old(cltbl) && frags == old(frags) && view.chain == old(view.chain)
      requires cltbl != null ==> cltbl[..] == old(cltbl[..])
      ensures MapOk() && MapCurrent() == old(MapCurrent())
    {
    }

    /** With a link map of clusters the chain and the FAT are those of `v` and `F`. */
    ghost predicate Fixed(v: FileView, F: FatSeq)
      reads this`cltbl, this`view, fs`fat
    {
      cltbl != null && v.chain != [] ==> view.chain == v.chain && fs.fat == F
    }

    lemma FixedFacts(v: FileView, F: FatSeq)
      requires Fixed(v, F)
      ensures cltbl != null && v.chain != [] ==> view.chain == v.chain && fs.fat == F
    {
    }

    lemma IsFixed(v: FileView, F: FatSeq)
      requires cltbl != null && v.chain != [] ==> view.chain == v.chain && fs.fat == F
      ensures Fixed(v, F)
    {
    }

    /** No cluster for the next byte: the chain ends here, and without a link map no cluster is free. */
    ghost predicate Stuck()
      reads this`cltbl, this`view, this`fptr, fs`fat
    {
      fptr == ClusterBytes(fs.g) * |view.chain| && (cltbl == null || view.chain == [] ==> NoneFree(fs.fat))
    }

    lemma IsStuck()
      requires fptr == ClusterBytes(fs.g) * |view.chain| && (cltbl == null || view.chain == [] ==> NoneFree(fs.fat))
      ensures Stuck()
    {
    }

    lemma StuckIs()
      ensures Stuck() <==>
        fptr == ClusterBytes(fs.g) * |view.chain| && (cltbl == null || view.chain == [] ==> NoneFree(fs.fat))
    {
    }

    lemma StuckFacts()
      requires Stuck()
      ensures fptr == ClusterBytes(fs.g) * |view.chain| && (cltbl == null || view.chain == [] ==> NoneFree(fs.fat))
    {
    }

    /** The end of `f_open`, for a directory entry with start cluster `start` and size `size`. */
    constructor (fs: Volume, read: bool, write: bool, start: nat, size: nat, ghost chain: seq<nat>)
      requires fs.Valid() && NoOnes(fs.fat) && size < DWORD_SIZE
      requires GoodChain(fs.g, fs.fat, chain, |fs.img|) && CoversSize(fs.g, chain, size)
      requires if start == 0 then chain == [] else chain != [] && chain[0] == start
      requires Owner(fs.g, fs.winsect) !in chain
      ensures Valid()
      ensures this.fs == fs && view.chain == chain && canRead == read && canWrite == write
      ensures err == FR_OK && fptr == 0 && fsize == size && !dirty && dsect == 0 && cltbl == null
    {
      this.fs := fs;
      buf := seq<Byte>(SS, i => 0);
      canRead, canWrite := read, write;
      dirty, written, err := false, false, FR_OK;
      fptr, fsize, sclust, clust, dsect := 0, size, start, 0, 0;
      cltbl, frags := null, [];
      new;
      view := FileView(fs.img, fs.g, chain, false, 0, buf);
    }

    // ---- the sector buffer ----

    /** Writes the dirty buffer back. */
    method Flush(ghost exact: bool)
      requires Inv(exact)
      modifies this`dirty, this`view, fs`disk, fs`img
      ensures Inv(exact) && !dirty && (old(dirty) ==> Inv(true))
      ensures SameFile(old(view), view) && view.dsect == dsect
    {
      InvFacts(exact);
      ghost var v := view;
      SameFileRefl(v);
      if dirty {
        DirtySector(v, fs.fat, fs.winsect, sclust, exact);
        fs.DiskWrite(buf, dsect);
        dirty := false;
        view := v.(img := fs.img, dirty := false);
        FlushOk(v, view, fs.fat, fs.winsect, sclust, exact);
        FlushOutside(v, view);
      }
    }

    /** Reads sector `j` of the file, on disk at `sect`, into the clean buffer. */
    method ReadBuffer(sect: nat, ghost j: nat)
      requires Inv(true) && !dirty && InChain(view.g, view.chain, j) && sect == SectorAt(view.g, view.chain, j)
      modifies this`dsect, this`view, this`buf
      ensures Inv(true) && dsect == sect && Buffers(view, j)
      ensures SameFile(old(view), view) && view.dsect == dsect
    {
      InvFacts(true);
      ghost var v := view;
      OwnSector(v, fs.fat, fs.winsect, sclust, true, j);
      buf := fs.DiskRead(sect);
      dsect := sect;
      view := v.(dsect := sect, b := buf);
      LoadOk(v, view, fs.fat, fs.winsect, sclust, true, j);
      SameImageOutside(v, view);
    }

    /** Brings the sector of byte `fptr` into the buffer. */
    method FillBuffer(sect: nat)
      requires Placed() && sect == SectorAt(view.g, view.chain, Sec(fptr))
      modifies this`dirty, this`dsect, this`view, fs`disk, fs`img, this`buf
      ensures Placed() && Buffers(view, Sec(fptr)) && SameFile(old(view), view)
    {
      hide *;
      PlacedFacts();
      InvFacts(true);
      PlacedInChain(view, fptr, clust);
      ghost var v := view;
      SameFileRefl(v);
      if dsect != sect {
        Flush(true);
        ghost var m := view;
        SameFileFacts(v, m);
        ReadBuffer(sect, Sec(fptr));
        SameFileTrans(v, m, view);
        PlacedIn(v, view, fptr, clust);
      } else {
        AlreadyBuffered(v, fs.fat, fs.winsect, sclust, Sec(fptr));
      }
      IsPlaced();
    }

    // ---- the cluster cursor ----

    /** `clmt_clust` of byte `fptr` on a cluster boundary. 0: the chain ends here. */
    method MapCluster(ghost size: nat) returns (clst: nat)
      requires Ready(size) && MapOk() && cltbl != null && 0 < fptr && Rem(fptr) == 0 && Off(fs.g, Sec(fptr)) == 0
      ensures var k := Idx(fs.g, Sec(fptr));
        if k < |view.chain| then clst == view.chain[k] >= 2 else clst == 0 && fptr == ClusterBytes(fs.g) * |view.chain|
    {
      hide *;
      ReadyFacts(size);
      InvFacts(true);
      MapFacts();
      NextBoundary(view, size, fptr, clust);
      Clmt.NoFrags();
      ghost var xs := if MapCurrent() then view.chain else [];
      clst := Clmt.ClmtClust(fs.g, cltbl, fptr, frags, xs);
      ghost var k := Idx(fs.g, Sec(fptr));
      if k < |view.chain| {
        ChainRange(view, fs.fat, k);
      }
    }

    /** `f_read` on a cluster boundary: the cluster that holds byte `fptr`. */
    method EnterCluster()
      requires Ready(fsize) && fptr < fsize && MapOk()
      requires Rem(fptr) == 0 && Off(fs.g, Sec(fptr)) == 0
      modifies this`clust, fs`wflag, fs`winsect, fs`disk, fs.win
      ensures Placed()
    {
      InvFacts(true);
      var clst;
      if fptr == 0 {
        clst := sclust;
        EnterFirst(view, fs.fat, fs.winsect, sclust, true, fsize);
      } else if cltbl != null {
        EnterNext(view, fs.fat, fsize, fptr, clust);
        clst := MapCluster(fsize);
      } else {
        EnterNext(view, fs.fat, fsize, fptr, clust);
        clst := fs.GetFat(clust);
        AwayFromFat(view, fs.fat, fs.winsect);
      }
      assert clst >= 2;
      clust := clst;
    }

    /** On a sector boundary: the cluster of byte `fptr`. */
    method EnterSector()
      requires Ready(fsize) && fptr < fsize && Rem(fptr) == 0 && MapOk()
      modifies this`clust, fs`wflag, fs`winsect, fs`disk, fs.win
      ensures Placed()
    {
      hide *;
      ReadyFacts(fsize);
      InvFacts(true);
      SectorOffset(fs.g, Sec(fptr));
      if And(Sec(fptr), fs.g.csize - 1) == 0 {
        EnterCluster();
      } else {
        StayInCluster(view, fsize, fptr, clust);
        IsPlaced();
      }
    }

    /** The disk sector of byte `fptr`: first sector of the cluster plus the sector offset. */
    method CurrentSector() returns (csect: nat, sect: nat)
      requires Placed()
      ensures csect == Off(fs.g, Sec(fptr)) < fs.g.csize
      ensures sect == SectorAt(view.g, view.chain, Sec(fptr))
    {
      hide *;
      PlacedFacts();
      InvFacts(true);
      DwordSize();
      ClusterOf(view, fs.fat, fptr, clust);
      csect := And(Sec(fptr), fs.g.csize - 1);
      sect := Clust2Sect(fs.g, clust);
      assert sect != 0;
      sect := sect + csect;
    }

    // ---- f_read ----

    /** Direct transfer of whole sectors; the sector in the dirty buffer comes from there. */
    method ReadDirect(sect: nat, cc: nat) returns (out: seq<Byte>)
      requires Placed() && Rem(fptr) == 0
      requires cc >= 1 && Off(fs.g, Sec(fptr)) + cc <= fs.g.csize
      requires sect == SectorAt(view.g, view.chain, Sec(fptr))
      ensures out == BytesFrom(view, fptr, SS * cc)
    {
      InvFacts(true);
      RunInDisk(view, fs.fat, fs.winsect, Sec(fptr), cc);
      DirectRead(view, fs.fat, fptr, sect, cc);
      hide Inv, Volume.Valid, FileOk, GoodView, Flat, BytesFrom, InCluster, Off, Sec, SectorAt;
      out := fs.DiskReadMany(sect, cc);
      if dirty && Sub32(dsect, sect) < cc {
        out := Splice(out, SS * Sub32(dsect, sect), buf);
      }
    }

    /** Reads up to `cc` whole sectors, clipped at the end of the cluster. */
    method ReadWhole(csect: nat, sect: nat, cc: nat) returns (out: seq<Byte>)
      requires Placed() && Rem(fptr) == 0 && CoversSize(view.g, view.chain, fsize)
      requires csect == Off(fs.g, Sec(fptr)) < fs.g.csize && sect == SectorAt(view.g, view.chain, Sec(fptr))
      requires 1 <= cc && fptr + SS * cc <= fsize < DWORD_SIZE
      modifies this`fptr
      ensures Ready(fsize) && 0 < |out| <= SS * cc && fptr == old(fptr) + |out|
      ensures out == BytesFrom(view, old(fptr), |out|)
    {
      hide *;
      PlacedFacts();
      InvFacts(true);
      SectorSize();
      var n := cc;
      if csect + n > fs.g.csize {
        n := fs.g.csize - csect;
      }
      out := ReadDirect(sect, n);
      MoveWhole(view, fsize, fptr, clust, n);
      fptr := fptr + SS * n;
      IsReady(fsize);
    }

    /** Reads up to `btr` bytes from the buffered sector. */
    method ReadPart(btr: nat) returns (out: seq<Byte>)
      requires Placed() && Buffers(view, Sec(fptr)) && CoversSize(view.g, view.chain, fsize)
      requires 0 < btr && fptr + btr <= fsize < DWORD_SIZE
      modifies this`fptr
      ensures Ready(fsize) && 0 < |out| <= btr && fptr == old(fptr) + |out|
      ensures out == BytesFrom(view, old(fptr), |out|)
    {
      hide *;
      PlacedFacts();
      SectorSize();
      var rcnt := SS - Rem(fptr);
      if rcnt > btr {
        rcnt := btr;
      }
      BufferedBytes(view, fptr, rcnt);
      MovePart(view, fsize, fptr, clust, rcnt);
      out := buf[Rem(fptr)..Rem(fptr) + rcnt];
      fptr := fptr + rcnt;
      IsReady(fsize);
    }

    /** One turn of the loop of `f_read`: some of the `btr` bytes wanted. */
    method ReadStep(btr: nat) returns (out: seq<Byte>)
      requires Ready(fsize) && 0 < btr && fptr + btr <= fsize && MapOk()
      modifies this`dirty, this`fptr, this`clust, this`dsect, this`view, this`buf
      modifies fs`wflag, fs`winsect, fs`disk, fs`img, fs.win
      ensures Ready(fsize) && 0 < |out| <= btr && fptr == old(fptr) + |out|
      ensures out == BytesFrom(old(view), old(fptr), |out|)
      ensures SameFile(old(view), view) && MapOk() && MapCurrent() == old(MapCurrent())
    {
      hide *;
      ReadyFacts(fsize);
      SectorSize();
      ghost var v, f := view, fptr;
      SameFileRefl(v);
      if Rem(fptr) == 0 {
        EnterSector();
        var csect, sect := CurrentSector();
        var cc := btr / SS;
        if cc != 0 {
          out := ReadWhole(csect, sect, cc);
          MapKept();
          return;
        }
        FillBuffer(sect);
        SameFileFacts(v, view);
      } else {
        InvFacts(true);
        StayInSector(view, fs.fat, fs.winsect, sclust, fsize, fptr, clust);
        IsPlaced();
      }
      out := ReadPart(btr);
      SameFileBytes(v, view, fsize, f, |out|);
      SameFileFacts(v, view);
      MapKept();
    }

    /** `data` is what was read from byte `p` of the file `v` so far. */
    ghost predicate ReadSoFar(v: FileView, p: nat, data: seq<Byte>)
      reads this`dirty, this`dsect, this`sclust, this`view, this`fptr, this`fsize, this`clust, this`buf, fs, fs.win
    {
      Ready(fsize) && fptr == p + |data| && SameFile(v, view) && data == BytesFrom(v, p, |data|)
    }

    lemma SoFarFacts(v: FileView, p: nat, data: seq<Byte>)
      requires ReadSoFar(v, p, data)
      ensures Ready(fsize) && fptr == p + |data| && SameFile(v, view) && data == BytesFrom(v, p, |data|)
    {
    }

    lemma SoFar(v: FileView, p: nat, data: seq<Byte>)
      requires Ready(fsize) && fptr == p + |data| && SameFile(v, view) && data == BytesFrom(v, p, |data|)
      ensures ReadSoFar(v, p, data)
    {
    }

    method ReadMoreData(ghost v: FileView, ghost p: nat, data: seq<Byte>, n: nat) returns (more: seq<Byte>)
      requires ReadSoFar(v, p, data) && |data| < n && p + n <= fsize && MapOk()
      modifies this`dirty, this`fptr, this`clust, this`dsect, this`view, this`buf
      modifies fs`wflag, fs`winsect, fs`disk, fs`img, fs.win
      ensures ReadSoFar(v, p, more) && |data| < |more| <= n && MapOk() && MapCurrent() == old(MapCurrent())
    {
      hide *;
      SoFarFacts(v, p, data);
      ReadyFacts(fsize);
      SameFileCovers(v, view, fsize);
      ghost var m := view;
      var out := ReadStep(n - |data|);
      ReadMore(v, m, view, fsize, p, data, out);
      more := data + out;
      SoFar(v, p, more);
    }

    /** The loop of `f_read`. */
    method ReadLoop(n: nat) returns (data: seq<Byte>)
      requires Ready(fsize) && fptr + n <= fsize && MapOk()
      modifies this`dirty, this`fptr, this`clust, this`dsect, this`view, this`buf
      modifies fs`wflag, fs`winsect, fs`disk, fs`img, fs.win
      ensures ReadSoFar(old(view), old(fptr), data) && |data| == n && MapOk() && MapCurrent() == old(MapCurrent())
    {
      ghost var v, p := view, fptr;
      hide *;
      SameFileRefl(v);
      NoBytes(v, p);
      SoFar(v, p, []);
      data := [];
      while |data| < n
        invariant ReadSoFar(v, p, data) && |data| <= n && MapOk() && MapCurrent() == old(MapCurrent())
      {
        data := ReadMoreData(v, p, data, n);
      }
    }

    /** `f_read`: at most `want` bytes. */
    method Read(want: nat) returns (res: FResult, data: seq<Byte>)
      requires Valid() && MapOk()
      modifies this`dirty, this`fptr, this`clust, this`dsect, this`view, this`buf
      modifies fs`wflag, fs`winsect, fs`disk, fs`img, fs.win
      ensures Valid() && Content() == old(Content())
      ensures err != FR_OK ==> res == err && data == []
      ensures err == FR_OK && !canRead ==> res == FR_DENIED && data == []
      ensures err == FR_OK && canRead ==> res == FR_OK && |data| == if want < fsize - old(fptr) then want
        else fsize - old(fptr)
      ensures fptr == old(fptr) + |data| <= fsize
      ensures data == old(Content())[old(fptr)..fptr]
      ensures SameFile(old(view), view) && MapOk() && MapCurrent() == old(MapCurrent())
    {
      hide *;
      ValidFacts();
      ContentFacts();
      ghost var v := view;
      SameFileRefl(v);
      if err != FR_OK {
        return err, [];
      }
      if !canRead {
        return FR_DENIED, [];
      }
      var remain := fsize - fptr;
      var btr := if want > remain then remain else want;
      BytesSlice(v, fsize, fptr, btr);
      data := ReadLoop(btr);
      SoFarFacts(v, old(fptr), data);
      SameFileBytes(v, view, fsize, 0, fsize);
      ContentFacts();
      res := FR_OK;
    }

    // ---- stretching the chain ----

    /** The first cluster, allocated if there is none yet. 0: no free cluster. */
    method FirstCluster() returns (clst: nat)
      requires Inv(true)
      modifies this`sclust, this`view, fs`wflag, fs`winsect, fs`disk, fs`img, fs`fat, fs.win
      modifies fs`freeClust, fs`fsiDirty, fs`lastClust
      ensures Inv(true) && clst == sclust && Growth(old(view), old(fs.fat), view, fs.fat)
      ensures old(view).chain != [] ==> view.chain == old(view).chain && fs.fat == old(fs.fat)
      ensures old(view).chain == [] ==> |view.chain| <= 1
      ensures if clst == 0 then view.chain == [] && NoneFree(fs.fat) else view.chain != [] && clst == view.chain[0] >= 2
      ensures old(fs.Counted()) ==> fs.Counted()
    {
      hide *;
      InvFacts(true);
      ghost var v, F := view, fs.fat;
      FirstOf(v, F, fs.winsect, sclust, true);
      GrowthRefl(v, F);
      clst := sclust;
      if clst == 0 {
        StretchFacts();
        clst := fs.CreateChain(0);
        sclust := clst;
        view := v.(img := fs.img, chain := if clst == 0 then [] else [clst]);
        StartOk(v, view, F, fs.fat, old(fs.winsect), fs.winsect, Trunc(fs.g.fsType, EOC), old(fs.lastClust), clst);
        IsInv(true);
      }
    }

    /** `create_chain` on cluster `k` of the file. 0: no free cluster, else cluster `k + 1`. */
    method FollowChain(c: nat, ghost k: nat) returns (ncl: nat)
      requires Inv(true) && k < |view.chain| && c == view.chain[k]
      modifies this`view, fs`wflag, fs`winsect, fs`disk, fs`img, fs`fat, fs.win
      modifies fs`freeClust, fs`fsiDirty, fs`lastClust
      ensures Inv(true) && Growth(old(view), old(fs.fat), view, fs.fat)
      ensures view.chain == Stretched(old(view).chain, k, ncl)
      ensures if ncl == 0 then k + 1 == |view.chain| && NoneFree(fs.fat)
        else k + 1 < |view.chain| && ncl == view.chain[k + 1] >= 2
      ensures old(fs.Counted()) ==> fs.Counted()
    {
      hide *;
      InvFacts(true);
      StretchFacts();
      ghost var v, F := view, fs.fat;
      ncl := fs.CreateChain(c);
      view := v.(img := fs.img, chain := Stretched(v.chain, k, ncl));
      NextOk(v, view, F, fs.fat, old(fs.winsect), fs.winsect, sclust, Trunc(fs.g.fsType, EOC),
             old(fs.lastClust), k, ncl);
      IsInv(true);
    }

    // ---- f_write ----

    /** `f_write` on a cluster boundary: the cluster of byte `fptr`, by the link map, or else allocated
        if needed. False: there is none. */
    method EnterWriting(ghost size: nat) returns (ok: bool)
      requires Ready(size) && Rem(fptr) == 0 && Off(fs.g, Sec(fptr)) == 0 && MapOk()
      modifies this`clust, this`sclust, this`view, fs`wflag, fs`winsect, fs`disk, fs`img, fs`fat, fs.win
      modifies fs`freeClust, fs`fsiDirty, fs`lastClust
      ensures if ok then Placed() else Ready(size) && Stuck()
      ensures Growth(old(view), old(fs.fat), view, fs.fat)
      ensures MapOk() && Fixed(old(view), old(fs.fat))
      ensures old(fs.Counted()) ==> fs.Counted()
    {
      hide *;
      ReadyFacts(size);
      InvFacts(true);
      ghost var v, F := view, fs.fat;
      var clst;
      if fptr == 0 {
        clst := FirstCluster();
        MapAfterFirst();
        if clst != 0 {
          InFirst(view, clst);
        }
      } else if cltbl != null {
        BeforeNext(v, size, fptr, clust);
        GrowthRefl(v, F);
        clst := MapCluster(size);
        if clst != 0 {
          InNext(view, fptr, clst);
        }
      } else {
        BeforeNext(v, size, fptr, clust);
        NextBoundary(v, size, fptr, clust);
        clst := FollowChain(clust, Idx(fs.g, Sec(fptr)) - 1);
        NoMap();
        GrowthFacts(v, F, view, fs.fat);
        if clst != 0 {
          InNext(view, fptr, clst);
        }
      }
      IsFixed(v, F);
      if clst == 0 {
        GrowthFacts(v, F, view, fs.fat);
        InvFacts(true);
        CursorGrown(v, view, size, fptr, clust);
        IsReady(size);
        IsStuck();
        return false;
      }
      clust := clst;
      IsPlaced();
      ok := true;
    }

    lemma NoMap()
      requires cltbl == null
      ensures MapOk()
    {
    }

    /** A first cluster comes after the map was made. */
    twostate lemma MapAfterFirst()
      requires old(MapOk()) && cltbl == old(cltbl) && frags == old(frags)
      requires cltbl != null ==> cltbl[..] == old(cltbl[..])
      requires if old(view.chain) == [] then |view.chain| <= 1 else view.chain == old(view.chain)
      ensures MapOk()
    {
      if old(view.chain) == [] && cltbl != null {
        Clmt.OnlyNone(frags);
      }
    }

    /** Writes up to `cc` whole sectors of `d`, clipped at the end of the cluster, and
        refills the buffer if its sector was among them. */
    method WriteWhole(csect: nat, sect: nat, cc: nat, d: seq<Byte>, ghost size: nat) returns (n: nat)
      requires Placed() && !dirty && Rem(fptr) == 0 && CoversSize(view.g, view.chain, size) && fptr <= size < DWORD_SIZE
      requires csect == Off(fs.g, Sec(fptr)) < fs.g.csize && sect == SectorAt(view.g, view.chain, Sec(fptr))
      requires 1 <= cc && SS * cc <= |d| && fptr + |d| < DWORD_SIZE
      modifies this`fptr, this`buf, this`view, this`dirty, fs`disk, fs`img
      ensures 0 < n <= |d| && fptr == old(fptr) + n && Ready(Max(size, fptr)) && view.chain == old(view).chain
      ensures Update(old(view), old(fs.fat), view, fs.fat, size, old(fptr), d[..n])
    {
      hide *;
      PlacedFacts();
      InvFacts(true);
      SectorSize();
      PlacedInChain(view, fptr, clust);
      var m := cc;
      if csect + m > fs.g.csize {
        m := fs.g.csize - csect;
      }
      n := SS * m;
      ghost var v, F := view, fs.fat;
      RunInDisk(v, F, fs.winsect, Sec(fptr), m);
      DwordSize();
      fs.DiskWriteMany(d[..n], sect, m);
      if Sub32(dsect, sect) < m {
        buf := Chunk(d[..n], Sub32(dsect, sect));
        dirty := false;
      }
      view := v.(img := fs.img, b := buf);
      DirectOk(v, view, F, fs.winsect, sclust, Sec(fptr), m, d[..n]);
      DirectWrite(v, view, F, Sec(fptr), m, d[..n]);
      DirectUpdate(v, view, F, size, fptr, m, d[..n]);
      PlacedHere(v, view, fptr, clust);
      MoveWholeWriting(view, size, fptr, clust, m);
      fptr := fptr + n;
      IsInv(true);
      IsReady(Max(size, fptr));
    }

    /** The buffer can take bytes of the sector of byte `fptr`: it holds that sector, or
        the whole sector lies past the last of the file's `size` bytes. */
    ghost predicate Patchable(size: nat)
      reads this`dirty, this`dsect, this`sclust, this`view, this`fptr, this`clust, this`buf, fs, fs.win
    {
      && Inv(false) && InCluster(view, fptr, clust)
      && dsect == SectorAt(view.g, view.chain, Sec(fptr))
      && ((Rem(fptr) == 0 && fptr == size) || FileSector(view, Sec(fptr)) == view.b)
    }

    lemma PatchableFacts(size: nat)
      requires Patchable(size)
      ensures Inv(false) && InCluster(view, fptr, clust)
      ensures dsect == SectorAt(view.g, view.chain, Sec(fptr))
      ensures (Rem(fptr) == 0 && fptr == size) || FileSector(view, Sec(fptr)) == view.b
    {
    }

    lemma IsPatchable(size: nat)
      requires Inv(false) && InCluster(view, fptr, clust)
      requires dsect == SectorAt(view.g, view.chain, Sec(fptr))
      requires (Rem(fptr) == 0 && fptr == size) || FileSector(view, Sec(fptr)) == view.b
      ensures Patchable(size)
    {
    }

    /** Gets the clean buffer ready for the sector of byte `fptr`; at the growing edge
        nothing is loaded. */
    method PrepareSector(sect: nat, ghost size: nat)
      requires Placed() && !dirty && Rem(fptr) == 0 && size == Max(fsize, fptr)
      requires sect == SectorAt(view.g, view.chain, Sec(fptr))
      modifies this`dsect, this`view, this`buf
      ensures Patchable(size) && SameFile(old(view), view)
    {
      hide *;
      PlacedFacts();
      InvFacts(true);
      PlacedInChain(view, fptr, clust);
      ghost var v := view;
      if dsect != sect && fptr < fsize {
        ReadBuffer(sect, Sec(fptr));
        InvFacts(true);
        PlacedIn(v, view, fptr, clust);
        BufferedSector(view, fs.fat, fs.winsect, sclust, Sec(fptr));
      } else if dsect != sect {
        dsect := sect;
        view := v.(dsect := sect);
        RetargetOk(v, view, fs.fat, fs.winsect, sclust, Sec(fptr));
        PlacedIn(v, view, fptr, clust);
      } else {
        SameFileRefl(v);
        AlreadyBuffered(v, fs.fat, fs.winsect, sclust, Sec(fptr));
        BufferedSector(v, fs.fat, fs.winsect, sclust, Sec(fptr));
      }
      IsInv(false);
      IsPatchable(size);
    }

    /** Puts up to `|d|` bytes into the buffered sector. */
    method WritePart(d: seq<Byte>, ghost size: nat) returns (n: nat)
      requires Patchable(size) && CoversSize(view.g, view.chain, size) && fptr <= size < DWORD_SIZE
      requires 0 < |d| && fptr + |d| < DWORD_SIZE
      modifies this`fptr, this`buf, this`view, this`dirty
      ensures 0 < n <= |d| && fptr == old(fptr) + n && Ready(Max(size, fptr)) && view.chain == old(view).chain
      ensures Update(old(view), fs.fat, view, fs.fat, size, old(fptr), d[..n])
    {
      hide *;
      PatchableFacts(size);
      InvFacts(false);
      SectorSize();
      PlacedInChain(view, fptr, clust);
      ghost var v := view;
      n := SS - Rem(fptr);
      if n > |d| {
        n := |d|;
      }
      buf := Patch(buf, Rem(fptr), d[..n]);
      dirty := true;
      view := v.(b := buf, dirty := true);
      PartOk(v, view, fs.fat, fs.winsect, sclust, Sec(fptr));
      CoveredHere(v, fptr, clust);
      PartUpdate(v, view, fs.fat, size, fptr, d[..n]);
      PlacedHere(v, view, fptr, clust);
      MovePartWriting(view, size, fptr, clust, n);
      fptr := fptr + n;
      IsInv(true);
      IsReady(Max(size, fptr));
    }

    /** `f_write` on a sector boundary, up to the write-back of the buffer. False: disk full. */
    method EnterSectorWriting(ghost size: nat) returns (ok: bool)
      requires Ready(size) && Rem(fptr) == 0 && MapOk()
      modifies this`clust, this`sclust, this`view, this`dirty, fs`wflag, fs`winsect, fs`disk, fs`img, fs`fat, fs.win
      modifies fs`freeClust, fs`fsiDirty, fs`lastClust
      ensures if ok then Placed() && !dirty else Ready(size) && Stuck()
      ensures Growth(old(view), old(fs.fat), view, fs.fat)
      ensures MapOk() && Fixed(old(view), old(fs.fat))
      ensures old(fs.Counted()) ==> fs.Counted()
    {
      hide *;
      ReadyFacts(size);
      InvFacts(true);
      SectorOffset(fs.g, Sec(fptr));
      ghost var v, F := view, fs.fat;
      GrowthRefl(v, F);
      if And(Sec(fptr), fs.g.csize - 1) == 0 {
        ok := EnterWriting(size);
        if !ok {
          return;
        }
        PlacedFacts();
        FixedFacts(v, F);
      } else {
        StayInCluster(view, size, fptr, clust);
      }
      ghost var m, M := view, fs.fat;
      label entered:
      Flush(true);
      SameFileFacts(m, view);
      MapKept@entered();
      IsFixed(v, F);
      SameIsGrowth(m, view, M);
      GrowthTrans(v, F, m, M, view, M);
      PlacedHere(m, view, fptr, clust);
      IsPlaced();
      ok := true;
    }

    /** One turn of the loop of `f_write` with `d` left to write. 0: no free cluster. */
    method WriteStep(d: seq<Byte>, ghost size: nat) returns (n: nat)
      requires Ready(size) && size == Max(fsize, fptr) && d != [] && fptr + |d| < DWORD_SIZE && MapOk()
      modifies this`clust, this`sclust, this`view, this`dirty, this`fptr, this`dsect, this`buf
      modifies fs`wflag, fs`winsect, fs`disk, fs`img, fs`fat, fs.win
      modifies fs`freeClust, fs`fsiDirty, fs`lastClust
      ensures n <= |d| && fptr == old(fptr) + n && Ready(Max(size, fptr))
      ensures n == 0 ==> Stuck()
      ensures MapOk() && Fixed(old(view), old(fs.fat))
      ensures Update(old(view), old(fs.fat), view, fs.fat, size, old(fptr), d[..n])
      ensures old(fs.Counted()) ==> fs.Counted()
    {
      hide *;
      ReadyFacts(size);
      SectorSize();
      ghost var v, F, f := view, fs.fat, fptr;
      if Rem(fptr) == 0 {
        var ok := EnterSectorWriting(size);
        if !ok {
          NoUpdate(v, F, view, fs.fat, size, f);
          return 0;
        }
        ghost var m, M := view, fs.fat;
        label entered:
        FixedFacts(v, F);
        GrowthFacts(v, F, m, M);
        CoversGrown(v, m, size);
        var csect, sect := CurrentSector();
        var cc := |d| / SS;
        if cc != 0 {
          WholeSectors(|d|);
          n := WriteWhole(csect, sect, cc, d, size);
          UpdateAfterGrowth(v, F, m, M, view, fs.fat, size, f, d[..n]);
          MapKept@entered();
          IsFixed(v, F);
          return;
        }
        PrepareSector(sect, size);
        SameFileFacts(m, view);
        MapKept@entered();
        SameIsGrowth(m, view, M);
        GrowthTrans(v, F, m, M, view, M);
        GrowthFacts(m, M, view, M);
        CoversGrown(m, view, size);
      } else {
        InvFacts(true);
        StayInSector(view, fs.fat, fs.winsect, sclust, size, fptr, clust);
        BufferedSector(view, fs.fat, fs.winsect, sclust, Sec(fptr));
        IsInv(false);
        IsPatchable(size);
        GrowthRefl(v, F);
      }
      ghost var b := view;
      label ready:
      n := WritePart(d, size);
      UpdateAfterGrowth(v, F, b, fs.fat, view, fs.fat, size, f, d[..n]);
      MapKept@ready();
      IsFixed(v, F);
    }

    /** The first `n` bytes of `d` are written to the file `v` of `size` bytes from `p` on. */
    ghost predicate WroteSoFar(v: FileView, F: FatSeq, size: nat, p: nat, d: seq<Byte>, n: nat)
      reads this`dirty, this`dsect, this`sclust, this`view, this`fptr, this`clust, this`buf, fs, fs.win
    {
      && p <= size && n <= |d| && fptr == p + n
      && Ready(Max(size, fptr)) && Update(v, F, view, fs.fat, size, p, d[..n])
    }

    lemma WroteFacts(v: FileView, F: FatSeq, size: nat, p: nat, d: seq<Byte>, n: nat)
      requires WroteSoFar(v, F, size, p, d, n)
      ensures p <= size && n <= |d| && fptr == p + n
      ensures Ready(Max(size, fptr)) && Update(v, F, view, fs.fat, size, p, d[..n])
    {
    }

    lemma Wrote(v: FileView, F: FatSeq, size: nat, p: nat, d: seq<Byte>, n: nat)
      requires p <= size && n <= |d| && fptr == p + n
      requires Ready(Max(size, fptr)) && Update(v, F, view, fs.fat, size, p, d[..n])
      ensures WroteSoFar(v, F, size, p, d, n)
    {
    }

    method WriteMoreData(ghost v: FileView, ghost F: FatSeq, ghost p: nat, d: seq<Byte>, n: nat) returns (more: nat)
      requires WroteSoFar(v, F, fsize, p, d, n) && n < |d| && p + |d| < DWORD_SIZE && MapOk() && Fixed(v, F)
      modifies this`clust, this`sclust, this`view, this`dirty, this`fptr, this`dsect, this`buf
      modifies fs`wflag, fs`winsect, fs`disk, fs`img, fs`fat, fs.win
      modifies fs`freeClust, fs`fsiDirty, fs`lastClust
      ensures n <= more <= |d| && WroteSoFar(v, F, fsize, p, d, more)
      ensures more == n ==> Stuck()
      ensures MapOk() && Fixed(v, F)
      ensures old(fs.Counted()) ==> fs.Counted()
    {
      hide *;
      WroteFacts(v, F, fsize, p, d, n);
      ghost var m, M := view, fs.fat;
      FixedFacts(v, F);
      var wcnt := WriteStep(d[n..], Max(fsize, fptr));
      FixedFacts(m, M);
      IsFixed(v, F);
      more := n + wcnt;
      UpdateTwice(v, F, m, M, view, fs.fat, fsize, p, d[..n], d[n..][..wcnt]);
      assert d[..n] + d[n..][..wcnt] == d[..more];
      assert Max(Max(fsize, p + n), fptr) == Max(fsize, fptr);
      Wrote(v, F, fsize, p, d, more);
    }

    /** The loop of `f_write`. Stops early only when there is no cluster to go on in. */
    method WriteLoop(d: seq<Byte>) returns (n: nat)
      requires Valid() && fptr + |d| < DWORD_SIZE && MapOk()
      modifies this`clust, this`sclust, this`view, this`dirty, this`fptr, this`dsect, this`buf
      modifies fs`wflag, fs`winsect, fs`disk, fs`img, fs`fat, fs.win
      modifies fs`freeClust, fs`fsiDirty, fs`lastClust
      ensures WroteSoFar(old(view), old(fs.fat), fsize, old(fptr), d, n)
      ensures n < |d| ==> Stuck()
      ensures MapOk() && Fixed(old(view), old(fs.fat))
      ensures old(fs.Counted()) ==> fs.Counted()
    {
      hide *;
      ValidFacts();
      ReadyFacts(fsize);
      ghost var v, F, p := view, fs.fat, fptr;
      GrowthRefl(v, F);
      NoUpdate(v, F, v, F, fsize, p);
      assert d[..0] == [];
      Wrote(v, F, fsize, p, d, 0);
      IsFixed(v, F);
      n := 0;
      var full := false;
      while n < |d| && !full
        invariant WroteSoFar(v, F, fsize, p, d, n) && n <= |d|
        invariant full ==> Stuck()
        invariant MapOk() && Fixed(v, F)
        invariant old(fs.Counted()) ==> fs.Counted()
        decreases |d| - n, !full
      {
        var more := WriteMoreData(v, F, p, d, n);
        full := more == n;
        n := more;
      }
    }

    /** The loop of `f_write`, below 4 GB, and the new size. */
    method WriteAll(d: seq<Byte>) returns (bw: nat)
      requires Valid() && fptr + |d| < DWORD_SIZE && MapOk()
      modifies this`clust, this`sclust, this`view, this`dirty, this`fptr, this`dsect, this`buf, this`fsize, this`written
      modifies fs`wflag, fs`winsect, fs`disk, fs`img, fs`fat, fs.win
      modifies fs`freeClust, fs`fsiDirty, fs`lastClust
      ensures Ready(fsize) && bw <= |d| && fptr == old(fptr) + bw && written
      ensures old(fptr) <= old(fsize) && fsize == Max(old(fsize), fptr)
      ensures Update(old(view), old(fs.fat), view, fs.fat, old(fsize), old(fptr), d[..bw])
      ensures bw < |d| ==>
        Stuck() && old(fsize) <= fptr == ClusterBytes(fs.g) * |view.chain| && (cltbl == null ==> NoneFree(fs.fat))
      ensures MapOk() && Fixed(old(view), old(fs.fat))
      ensures old(fs.Counted()) ==> fs.Counted()
    {
      hide *;
      ghost var v, F, p := view, fs.fat, fptr;
      bw := WriteLoop(d);
      WroteFacts(v, F, fsize, p, d, bw);
      ReadyFacts(Max(fsize, fptr));
      BeforeEnd(view, Max(fsize, fptr), fsize);
      StuckIs();
      if fptr > fsize {
        fsize := fptr;
      }
      StuckIs();
      written := true;
    }

    /** `f_write` of `d`: `bw` bytes are written, fewer than wanted only if the file would
        reach 4 GB, or at the end of the chain when no cluster is free or there is a link map. */
    method Write(d: seq<Byte>) returns (res: FResult, bw: nat)
      requires Valid() && |d| < DWORD_SIZE && MapOk()
      modifies this`clust, this`sclust, this`view, this`dirty, this`fptr, this`dsect, this`buf, this`fsize, this`written
      modifies fs`wflag, fs`winsect, fs`disk, fs`img, fs`fat, fs.win
      modifies fs`freeClust, fs`fsiDirty, fs`lastClust
      ensures Valid() && bw <= |d| && fptr == old(fptr) + bw
      ensures res == if err != FR_OK then err else if !canWrite then FR_DENIED else FR_OK
      ensures old(fptr) <= |old(Content())| && Content() == Overwrite(old(Content()), old(fptr), d[..bw])
      ensures res == FR_OK && bw < |d| ==>
        (bw == 0 && old(fptr) + |d| >= DWORD_SIZE)
        || (Stuck() && old(fsize) <= fptr == ClusterBytes(fs.g) * |view.chain| && (cltbl == null ==> NoneFree(fs.fat)))
      ensures err == FR_OK && old(fptr) + |d| >= DWORD_SIZE ==> bw == 0
      ensures err != FR_OK || !canWrite ==> bw == 0
      ensures MapOk() && Fixed(old(view), old(fs.fat))
      ensures written == (old(written) || (err == FR_OK && canWrite))
      ensures old(view).chain <= view.chain && SameOutsideFile(old(view), view)
      ensures FatGrown(old(fs.fat), fs.fat, old(view).chain, view.chain)
      ensures old(fs.Counted()) ==> fs.Counted()
    {
      hide *;
      ValidFacts();
      ContentFacts();
      DwordSize();
      ghost var v, F, p, size := view, fs.fat, fptr, fsize;
      GrowthRefl(v, F);
      NoUpdate(v, F, v, F, fsize, p);
      UpdateFacts(v, F, v, F, fsize, p, []);
      IsFixed(v, F);
      if err != FR_OK {
        assert d[..0] == [];
        return err, 0;
      }
      if !canWrite {
        assert d[..0] == [];
        return FR_DENIED, 0;
      }
      Wraps(fptr, |d|);
      var btw := if (fptr + |d|) % DWORD_SIZE < fptr then 0 else |d|;
      bw := WriteAll(d[..btw]);
      assert d[..btw][..bw] == d[..bw];
      UpdateFacts(v, F, view, fs.fat, size, p, d[..bw]);
      ContentFacts();
      res := FR_OK;
    }

    lemma Wraps(p: nat, n: nat)
      requires p < 0x1_0000_0000 && n < 0x1_0000_0000
      ensures (p + n) % DWORD_SIZE < p <==> p + n >= 0x1_0000_0000
    {
    }

    // ---- f_lseek ----

    /** On the way to `ofs`: `rest` bytes to go from the start of cluster `k`. */
    ghost predicate Walking(v: FileView, F: FatSeq, ofs: nat, k: nat, rest: nat)
      reads this`dirty, this`dsect, this`sclust, this`view, this`fptr, this`clust, this`buf, fs, fs.win
    {
      && Inv(true) && Growth(v, F, view, fs.fat)
      && Based(view, fptr, clust, k) && 0 < rest && fptr + rest == ofs
    }

    lemma WalkingFacts(v: FileView, F: FatSeq, ofs: nat, k: nat, rest: nat)
      requires Walking(v, F, ofs, k, rest)
      ensures Inv(true) && Growth(v, F, view, fs.fat)
      ensures Based(view, fptr, clust, k) && 0 < rest && fptr + rest == ofs
    {
    }

    lemma IsWalking(v: FileView, F: FatSeq, ofs: nat, k: nat, rest: nat)
      requires Inv(true) && Growth(v, F, view, fs.fat)
      requires Based(view, fptr, clust, k) && 0 < rest && fptr + rest == ofs
      ensures Walking(v, F, ofs, k, rest)
    {
    }

    /** The walk ends `rest` bytes on in cluster `k`: at `ofs`, or at the end of the chain
        when no cluster is free. */
    ghost predicate Arrived(v: FileView, F: FatSeq, ofs: nat, k: nat, rest: nat)
      reads this`dirty, this`dsect, this`sclust, this`view, this`fptr, this`clust, this`buf, fs, fs.win
    {
      && Inv(true) && Growth(v, F, view, fs.fat)
      && Based(view, fptr, clust, k) && 0 < rest <= ClusterBytes(view.g)
      && (fptr + rest == ofs || (fptr + rest == ClusterBytes(view.g) * |view.chain| < ofs && NoneFree(fs.fat)))
    }

    lemma ArrivedFacts(v: FileView, F: FatSeq, ofs: nat, k: nat, rest: nat)
      requires Arrived(v, F, ofs, k, rest)
      ensures Inv(true) && Growth(v, F, view, fs.fat)
      ensures Based(view, fptr, clust, k) && 0 < rest <= ClusterBytes(view.g)
      ensures fptr + rest == ofs || (fptr + rest == ClusterBytes(view.g) * |view.chain| < ofs && NoneFree(fs.fat))
    {
    }

    lemma HasArrived(v: FileView, F: FatSeq, ofs: nat, k: nat, rest: nat)
      requires Inv(true) && Growth(v, F, view, fs.fat)
      requires Based(view, fptr, clust, k) && 0 < rest <= ClusterBytes(view.g)
      requires fptr + rest == ofs || (fptr + rest == ClusterBytes(view.g) * |view.chain| < ofs && NoneFree(fs.fat))
      ensures Arrived(v, F, ofs, k, rest)
    {
    }

    /** Where the walk to `ofs` starts: at the current cluster when that does not lie past
        `ofs`, else at the first one. False: there is no cluster, and none is free. */
    method StartWalk(ofs: nat, bcs: nat) returns (ok: bool, rest: nat, ghost k: nat)
      requires Ready(fsize) && 0 < ofs < DWORD_SIZE && bcs == ClusterBytes(fs.g)
      modifies this`fptr, this`clust, this`sclust, this`view, fs`wflag, fs`winsect, fs`disk, fs`img, fs`fat, fs.win
      modifies fs`freeClust, fs`fsiDirty, fs`lastClust
      ensures if ok then Walking(old(view), old(fs.fat), ofs, k, rest)
        else
          Inv(true) && Growth(old(view), old(fs.fat), view, fs.fat) && view.chain == [] && fptr == 0 && NoneFree(fs.fat)
      ensures old(fs.Counted()) ==> fs.Counted()
    {
      hide *;
      ReadyFacts(fsize);
      InvFacts(true);
      ClusterIndex(fs.g, 0);
      SectorSize();
      ghost var v, F := view, fs.fat;
      var ifptr := fptr;
      if ifptr > 0 && (ofs - 1) / bcs >= (ifptr - 1) / bcs {
        GrowthRefl(v, F);
        BaseByMask(fs.g, ifptr);
        BaseOfCursor(v, fsize, ifptr, clust);
        SeekOnward(fs.g, ifptr, ofs);
        fptr := And(ifptr - 1, Not32(bcs - 1));
        rest, k := ofs - fptr, BaseIndex(fs.g, ifptr);
      } else {
        fptr := 0;
        var clst := FirstCluster();
        clust := clst;
        rest, k := ofs, 0;
        if clst == 0 {
          return false, rest, k;
        }
        BasedFirst(view, clst);
      }
      IsWalking(v, F, ofs, k, rest);
      ok := true;
    }

    /** One turn of the walk. True: no cluster is free. */
    method WalkStep(ghost v: FileView, ghost F: FatSeq, ghost ofs: nat, bcs: nat, rest: nat, ghost k: nat)
      returns (full: bool)
      requires Walking(v, F, ofs, k, rest) && rest > bcs == ClusterBytes(fs.g)
      requires canWrite || CoversSize(v.g, v.chain, ofs)
      modifies this`fptr, this`clust, this`view, fs`wflag, fs`winsect, fs`disk, fs`img, fs`fat, fs.win
      modifies fs`freeClust, fs`fsiDirty, fs`lastClust
      ensures if full then Arrived(v, F, ofs, k, bcs) else Walking(v, F, ofs, k + 1, rest - bcs)
      ensures old(fs.Counted()) ==> fs.Counted()
    {
      hide *;
      WalkingFacts(v, F, ofs, k, rest);
      InvFacts(true);
      BasedFacts(view, fptr, clust, k);
      ghost var m, M, f := view, fs.fat, fptr;
      GrowthFacts(v, F, m, M);
      var clst;
      if canWrite {
        clst := FollowChain(clust, k);
        GrowthTrans(v, F, m, M, view, fs.fat);
        GrowthFacts(m, M, view, fs.fat);
        if clst == 0 {
          BasedGrown(m, view, f, clust, k);
          BasedFacts(view, f, clust, k);
          ClusterIndex(fs.g, 0);
          SectorSize();
          HasArrived(v, F, ofs, k, bcs);
          return true;
        }
      } else {
        CoversGrown(v, m, ofs);
        NextCovered(m, ofs, f, clust, k, rest);
        NextLink(m, M, k);
        clst := fs.GetFat(clust);
        AwayFromFat(m, M, fs.winsect);
        AwayOk(m, M, old(fs.winsect), fs.winsect, sclust, true);
        IsInv(true);
      }
      BasedNext(m, view, f, clust, k, clst);
      clust := clst;
      fptr := fptr + bcs;
      IsWalking(v, F, ofs, k + 1, rest - bcs);
      full := false;
    }

    /** The cluster following loop of `f_lseek`. */
    method Walk(ghost v: FileView, ghost F: FatSeq, ghost ofs: nat, bcs: nat, start: nat, ghost k0: nat)
      returns (rest: nat, ghost k: nat)
      requires Walking(v, F, ofs, k0, start) && 1 <= bcs == ClusterBytes(fs.g)
      requires canWrite || CoversSize(v.g, v.chain, ofs)
      modifies this`fptr, this`clust, this`view, fs`wflag, fs`winsect, fs`disk, fs`img, fs`fat, fs.win
      modifies fs`freeClust, fs`fsiDirty, fs`lastClust
      ensures Arrived(v, F, ofs, k, rest)
      ensures old(fs.Counted()) ==> fs.Counted()
    {
      hide *;
      rest, k := start, k0;
      var full := false;
      while rest > bcs
        invariant if full then rest == bcs && Arrived(v, F, ofs, k, rest) else Walking(v, F, ofs, k, rest)
        invariant old(fs.Counted()) ==> fs.Counted()
      {
        full := WalkStep(v, F, ofs, bcs, rest, k);
        if full {
          rest := bcs;
          break;
        }
        rest, k := rest - bcs, k + 1;
      }
      if !full {
        WalkingFacts(v, F, ofs, k, rest);
        InvFacts(true);
        HasArrived(v, F, ofs, k, rest);
      }
    }

    /** Puts the pointer `rest` bytes on from the start of cluster `k`, and brings the
        sector there into the buffer if it is inside one. */
    method Settle(ghost v: FileView, ghost F: FatSeq, ghost ofs: nat, rest: nat, ghost k: nat)
      requires Arrived(v, F, ofs, k, rest) && CoversSize(v.g, v.chain, fsize) && ofs < DWORD_SIZE && fsize < DWORD_SIZE
      modifies this`fptr, this`dirty, this`dsect, this`view, fs`disk, fs`img, this`buf
      ensures fptr == old(fptr) + rest && Ready(Max(fsize, fptr)) && Growth(v, F, view, fs.fat)
      ensures view.chain == old(view).chain
    {
      hide *;
      ArrivedFacts(v, F, ofs, k, rest);
      InvFacts(true);
      SectorSize();
      DwordSize();
      ghost var m, M, f := view, fs.fat, fptr;
      GrowthFacts(v, F, m, M);
      CoversGrown(v, m, fsize);
      BasedCursor(m, f, clust, k, rest);
      BasedSector(m, f, clust, k, rest);
      fptr := fptr + rest;
      if rest % SS != 0 {
        ClusterOf(m, M, fptr, clust);
        IsPlaced();
        var nsect := Clust2Sect(fs.g, clust);
        assert nsect != 0;
        nsect := nsect + rest / SS;
        FillBuffer(nsect);
        SameIsGrowth(m, view, M);
        GrowthTrans(v, F, m, M, view, M);
        GrowthFacts(m, M, view, M);
        PlacedFacts();
        BufferIs(view, Sec(fptr));
      }
      SoughtCursor(view, fsize, fptr, clust);
      IsReady(Max(fsize, fptr));
    }

    /** `f_lseek` past the start of the file. */
    method SeekTo(ofs: nat)
      requires Ready(fsize) && 0 < ofs < DWORD_SIZE && (canWrite || ofs <= fsize)
      modifies this`clust, this`sclust, this`view, this`dirty, this`fptr, this`dsect, this`buf
      modifies fs`wflag, fs`winsect, fs`disk, fs`img, fs`fat, fs.win
      modifies fs`freeClust, fs`fsiDirty, fs`lastClust
      ensures Ready(Max(fsize, fptr)) && Growth(old(view), old(fs.fat), view, fs.fat)
      ensures fptr == ofs || (fptr == ClusterBytes(fs.g) * |view.chain| < ofs && NoneFree(fs.fat))
      ensures old(fs.Counted()) ==> fs.Counted()
    {
      hide *;
      ReadyFacts(fsize);
      InvFacts(true);
      CoversLess(view, fsize, ofs);
      SectorSize();
      ghost var v, F := view, fs.fat;
      var bcs := fs.g.csize * SS;
      ClusterIndex(fs.g, 0);
      ClusterBytesIs(fs.g);
      var ok, rest, k := StartWalk(ofs, bcs);
      if ok {
        rest, k := Walk(v, F, ofs, bcs, rest, k);
        ArrivedFacts(v, F, ofs, k, rest);
        InvFacts(true);
        Settle(v, F, ofs, rest, k);
        ReadyFacts(Max(fsize, fptr));
      } else {
        GrowthFacts(v, F, view, fs.fat);
        CoversGrown(v, view, fsize);
        NoChainNoBytes(view, fsize);
        CursorAtStart(view, fsize, clust);
        InvFacts(true);
        IsReady(fsize);
      }
    }

    /** `f_lseek` to `ofs`, without a link map: the bytes of the file stay; past its end, a file open for writing
        is stretched, by bytes about which nothing is known. */
    method Seek(ofs: nat) returns (res: FResult, ghost goal: nat)
      requires Valid() && ofs < DWORD_SIZE && cltbl == null
      modifies this`clust, this`sclust, this`view, this`dirty, this`fptr, this`dsect, this`buf, this`fsize, this`written
      modifies fs`wflag, fs`winsect, fs`disk, fs`img, fs`fat, fs.win
      modifies fs`freeClust, fs`fsiDirty, fs`lastClust
      ensures Valid() && res == err
      ensures goal == if ofs > old(fsize) && !canWrite then old(fsize) else ofs
      ensures err != FR_OK ==> fptr == old(fptr) && fsize == old(fsize) && written == old(written)
      ensures err == FR_OK ==>
        fptr == goal || (old(fsize) <= fptr == ClusterBytes(fs.g) * |view.chain| < goal && NoneFree(fs.fat))
      ensures err == FR_OK ==> fsize == Max(old(fsize), fptr)
      ensures Content()[..old(fsize)] == old(Content())
      ensures written == (old(written) || fsize > old(fsize))
      ensures Growth(old(view), old(fs.fat), view, fs.fat)
      ensures old(fs.Counted()) ==> fs.Counted()
    {
      hide *;
      ValidFacts();
      ContentFacts();
      ghost var v, F, size := view, fs.fat, fsize;
      GrowthRefl(v, F);
      goal := if ofs > fsize && !canWrite then fsize else ofs;
      if err != FR_OK {
        BytesPrefix(view, fsize, fsize);
        return err, goal;
      }
      var target := if ofs > fsize && !canWrite then fsize else ofs;
      if target == 0 {
        ReadyFacts(fsize);
        InvFacts(true);
        fptr := 0;
        CursorAtStart(view, fsize, clust);
        IsReady(fsize);
      } else {
        SeekTo(target);
      }
      ReadyFacts(Max(fsize, fptr));
      BeforeEnd(view, Max(fsize, fptr), fsize);
      GrowthBytes(v, F, view, fs.fat, size);
      if fptr > fsize {
        fsize := fptr;
        written := true;
      }
      ContentFacts();
      BytesPrefix(view, size, fsize);
      res := FR_OK;
    }

    // ---- f_truncate ----

    /** Frees every cluster from the first on. */
    method FreeAll() returns (res: FResult)
      requires Inv(true) && view.chain != []
      modifies this`sclust, fs`wflag, fs`winsect, fs`disk, fs`img, fs`fat, fs`freeClust, fs`fsiDirty, fs.win
      ensures fs.Valid() && SameOutsideFat(old(fs.img), fs.img, fs.g) && InFat(fs.g, fs.winsect)
      ensures res == FR_OK && sclust == 0 && ChainCut(old(fs.fat), fs.fat, view.chain, [])
      ensures old(fs.Counted()) ==> fs.Counted()
    {
      hide *;
      InvFacts(true);
      FirstOf(view, fs.fat, fs.winsect, sclust, true);
      CutAll(fs.fat, view.chain);
      FirstInRange(fs.fat, view.chain);
      var ok := fs.RemoveChain(sclust);
      res := if ok then FR_OK else FR_INT_ERR;
      sclust := 0;
    }

    /** The clusters past the pointer are freed; `ys` stay. */
    method FreeTail() returns (res: FResult, ghost ys: seq<nat>)
      requires Ready(fsize) && fptr < fsize
      modifies this`sclust, fs`wflag, fs`winsect, fs`disk, fs`img, fs`fat, fs`freeClust, fs`fsiDirty, fs.win
      ensures fs.Valid() && SameOutsideFat(old(fs.img), fs.img, fs.g) && InFat(fs.g, fs.winsect)
      ensures res == FR_OK && ChainCut(old(fs.fat), fs.fat, view.chain, ys) && |ys| == ClustersFor(view.g, fptr)
      ensures sclust == if ys == [] then 0 else ys[0]
      ensures old(fs.Counted()) ==> fs.Counted()
    {
      hide *;
      ReadyFacts(fsize);
      InvFacts(true);
      SomeChain(view, fsize);
      NoClusters(view.g);
      FirstOf(view, fs.fat, fs.winsect, sclust, true);
      if fptr == 0 {
        res := FreeAll();
        ys := [];
      } else {
        CutPoint(view, fsize, fptr, clust);
        ghost var k := ClustersFor(view.g, fptr) - 1;
        var ok := fs.CutAfter(clust, view.chain, k);
        res := if ok then FR_OK else FR_INT_ERR;
        ys := view.chain[..k + 1];
      }
    }

    /** The cut itself: the clusters past the pointer go, the dirty buffer is written back. */
    method CutFile() returns (res: FResult)
      requires Valid() && fptr < fsize
      modifies this`sclust, this`view, this`dirty, this`fsize, this`written
      modifies fs`wflag, fs`winsect, fs`disk, fs`img, fs`fat, fs.win, fs`freeClust, fs`fsiDirty
      ensures Valid() && res == FR_OK && fsize == fptr && written
      ensures Content() == old(Content())[..fsize]
      ensures |view.chain| == ClustersFor(view.g, fsize)
      ensures ChainCut(old(fs.fat), fs.fat, old(view).chain, view.chain)
      ensures SameOutsideFile(old(view), view)
      ensures old(fs.Counted()) ==> fs.Counted()
    {
      hide *;
      ValidFacts();
      ContentFacts();
      InvFacts(true);
      ReadyFacts(fsize);
      ghost var v, F, size, ws, sc := view, fs.fat, fsize, fs.winsect, sclust;
      FirstOf(v, F, ws, sc, true);
      SameImageOutside(v, v);
      BytesPrefix(v, fptr, size);
      StretchFacts();
      ghost var ys;
      res, ys := FreeTail();
      fsize := fptr;
      written := true;
      ghost var mid := fs.img;
      ImageLengths(v, mid);
      if dirty {
        DirtySector(v, F, ws, sc, true);
        AwayFromWindow(v, fs.winsect);
        fs.DiskWrite(buf, dsect);
        dirty := false;
      }
      view := v.(img := fs.img, chain := ys, dirty := false);
      CutOk(v, view, mid, F, fs.fat, ws, fs.winsect, sc, ys);
      ChainCutFacts(F, fs.fat, v.chain, ys);
      CutKeeps(v, view, mid, F, ys);
      CutCursor(v, view, size, fptr, clust);
      IsInv(true);
      IsReady(fsize);
      ReadyFacts(fsize);
      CutBytes(v, view, fsize);
      ContentFacts();
    }

    /** `f_truncate`: cuts the file at the pointer. The link map is left as it is. */
    method Truncate() returns (res: FResult)
      requires Valid()
      modifies this`sclust, this`view, this`dirty, this`fsize, this`written
      modifies fs`wflag, fs`winsect, fs`disk, fs`img, fs`fat, fs.win, fs`freeClust, fs`fsiDirty
      ensures Valid()
      ensures res == if err != FR_OK then err else if !canWrite then FR_DENIED else FR_OK
      ensures fptr <= old(fsize) && fsize == if res == FR_OK then fptr else old(fsize)
      ensures Content() == old(Content())[..fsize]
      ensures written == (old(written) || fsize < old(fsize))
      ensures fsize < old(fsize) ==> |view.chain| == ClustersFor(view.g, fsize)
      ensures ChainCut(old(fs.fat), fs.fat, old(view).chain, view.chain)
      ensures SameOutsideFile(old(view), view)
      ensures old(MapCurrent()) ==> (MapCurrent() <==> |view.chain| == |old(view).chain|)
      ensures old(fs.Counted()) ==> fs.Counted()
    {
      hide *;
      ValidFacts();
      ContentFacts();
      InvFacts(true);
      ReadyFacts(fsize);
      ghost var v, F := view, fs.fat;
      MapCurrentIs();
      FirstOf(v, F, fs.winsect, sclust, true);
      CutNothing(F, v.chain);
      SameImageOutside(v, v);
      assert Content()[..fsize] == Content();
      res := if err != FR_OK then err else if !canWrite then FR_DENIED else FR_OK;
      if res == FR_OK && fsize > fptr {
        res := CutFile();
      }
      ChainCutFacts(F, fs.fat, v.chain, view.chain);
      MapAfterCut(v.chain);
    }

    lemma MapAfterCut(xs: seq<nat>)
      requires view.chain <= xs
      ensures Clmt.Encodes(frags, xs) ==> (MapCurrent() <==> |view.chain| == |xs|)
    {
    }

    lemma MapCurrentIs()
      ensures MapCurrent() <==> Clmt.Encodes(frags, view.chain)
    {
    }

    // ---- fast seek ----

    /** `f_lseek(CREATE_LINKMAP)`, with the table the caller has put into the file object. The first item
        tells the size of the table before, and the size that is needed afterwards. */
    method MakeLinkMap(tbl: array<nat>) returns (res: FResult)
      requires Valid() && 1 <= tbl.Length && tbl[0] <= tbl.Length
      modifies this`cltbl, this`frags, this`err, tbl, fs`wflag, fs`winsect, fs`disk, fs.win
      ensures Valid() && cltbl == tbl && Content() == old(Content()) && view == old(view)
      ensures old(err) != FR_OK ==> res == err == old(err)
      ensures old(err) == FR_OK ==> res == if Clmt.Unlucky(fs.fat, view.chain) then FR_INT_ERR
        else if 2 * |frags| + 2 <= old(tbl[0]) then FR_OK else FR_NOT_ENOUGH_CORE
      ensures old(err) == FR_OK && res != FR_INT_ERR ==> MapCurrent() && tbl[0] == 2 * |frags| + 2
      // the map does not fit the table
      ensures old(err) == FR_OK && res == FR_NOT_ENOUGH_CORE && tbl.Length == old(tbl[0]) ==> !MapOk()
      ensures old(err) == FR_OK ==> err == if res == FR_INT_ERR then FR_INT_ERR else FR_OK
      ensures res == FR_OK ==> MapOk() && MapCurrent()
    {
      hide *;
      ValidFacts();
      cltbl := tbl;
      res := err;
      if err == FR_OK {
        res := FillLinkMap(tbl);
        if res == FR_INT_ERR {
          err := FR_INT_ERR;
        }
      }
      ContentFacts();
      MapHasRoom();
      if res == FR_OK {
        IsMapped();
      }
    }

    /** Fills the table with the map of the chain. */
    method FillLinkMap(tbl: array<nat>) returns (res: FResult)
      requires Ready(fsize) && 1 <= tbl.Length && tbl[0] <= tbl.Length
      modifies this`frags, tbl, fs`wflag, fs`winsect, fs`disk, fs.win
      ensures Ready(fsize) && fs.fat == old(fs.fat)
      ensures res == if Clmt.Unlucky(fs.fat, view.chain) then FR_INT_ERR
        else if 2 * |frags| + 2 <= old(tbl[0]) then FR_OK else FR_NOT_ENOUGH_CORE
      ensures res != FR_INT_ERR ==> MapCurrent() && tbl[0] == 2 * |frags| + 2
      ensures res == FR_OK ==> Clmt.Holds(tbl[..], frags) && Clmt.Encodes(frags, view.chain)
    {
      hide *;
      ReadyFacts(fsize);
      InvFacts(true);
      FirstOf(view, fs.fat, fs.winsect, sclust, true);
      res, frags := Clmt.CreateLinkMap(fs, sclust, tbl, view.chain);
      MapCurrentIs();
      if fs.winsect != old(fs.winsect) {
        AwayFromFat(view, fs.fat, fs.winsect);
      }
      IsInv(true);
      IsReady(fsize);
    }

    lemma MapHasRoom()
      ensures MapOk() && cltbl != null ==> cltbl.Length >= 2 * |frags| + 2
    {
    }

    lemma IsMapped()
      requires cltbl != null ==> Clmt.Holds(cltbl[..], frags)
      requires Clmt.Encodes(frags, view.chain)
      ensures MapOk() && MapCurrent()
    {
    }

    /** The cursor by the link map. False: the map has no cluster there. */
    method SeekInMap(target: nat) returns (ok: bool)
      requires Valid() && 0 < target <= fsize && MapOk() && cltbl != null
      modifies this`clust, this`view, this`dirty, this`fptr, this`dsect, this`buf, fs`disk, fs`img
      ensures ok == old(MapCurrent()) && fptr == target && SameFile(old(view), view) && Inv(true)
      ensures ok ==> Ready(fsize)
    {
      hide *;
      ValidFacts();
      ReadyFacts(fsize);
      InvFacts(true);
      SectorSize();
      DwordSize();
      MapFacts();
      Clmt.NoFrags();
      ghost var v := view;
      SameFileRefl(v);
      fptr := target;
      ghost var xs := if MapCurrent() then view.chain else [];
      clust := Clmt.ClmtClust(fs.g, cltbl, target - 1, frags, xs);
      CoveredBelow(view.g, view.chain, fsize, target - 1);
      CoveredIs(view, target - 1);
      NoSector(fs.g);
      if MapCurrent() {
        HereInCluster(view, target - 1, clust);
        ClusterOf(view, fs.fat, target - 1, clust);
      }
      var dsc := Clust2Sect(fs.g, clust);
      ok := dsc != 0;
      if ok {
        SecIs(target - 1);
        dsc := dsc + And((target - 1) / SS, fs.g.csize - 1);
        LoadSought(dsc);
        ReadyFacts(fsize);
      }
    }

    /** Loads the sector at `dsc` if the pointer is inside it. */
    method LoadSought(dsc: nat)
      requires Inv(true) && 0 < fptr <= fsize < DWORD_SIZE && InCluster(view, fptr - 1, clust)
      requires CoversSize(view.g, view.chain, fsize) && dsc == SectorAt(view.g, view.chain, Sec(fptr - 1))
      modifies this`view, this`dirty, this`dsect, this`buf, fs`disk, fs`img
      ensures Ready(fsize) && SameFile(old(view), view)
    {
      hide *;
      InvFacts(true);
      SectorSize();
      ghost var v := view;
      SameFileRefl(v);
      RemIs(fptr);
      SameSector(view, fptr, clust);
      if fptr % SS != 0 {
        IsPlaced();
        FillBuffer(dsc);
        PlacedFacts();
        SameFileFacts(v, view);
        BufferIs(view, Sec(fptr));
      }
      BehindCluster(v, view, fptr, clust);
      SoughtCursor(view, fsize, fptr, clust);
      assert Max(fsize, fptr) == fsize;
      IsReady(fsize);
    }

    /** `f_lseek` with a link map: the same place as by walking the chain, without stretching. A map
        that was made when there was no cluster leads nowhere. */
    method SeekFast(ofs: nat) returns (res: FResult)
      requires Valid() && ofs < DWORD_SIZE && MapOk() && cltbl != null
      modifies this`clust, this`view, this`dirty, this`fptr, this`dsect, this`buf, this`err, fs`disk, fs`img
      ensures res == err && fsize == old(fsize) && Content() == old(Content()) && Inv(true)
      ensures SameFile(old(view), view) && MapOk() && MapCurrent() == old(MapCurrent())
      ensures old(err) != FR_OK ==> Valid() && err == old(err) && fptr == old(fptr)
      ensures old(err) == FR_OK ==> fptr == if ofs > fsize then fsize else ofs
      ensures old(err) == FR_OK ==> res == if MapCurrent() || fptr == 0 then FR_OK else FR_INT_ERR
      ensures res == FR_OK ==> Valid()
    {
      hide *;
      ValidFacts();
      ContentFacts();
      ReadyFacts(fsize);
      ghost var v := view;
      SameFileRefl(v);
      if err != FR_OK {
        return err;
      }
      var target := if ofs > fsize then fsize else ofs;
      if target == 0 {
        InvFacts(true);
        fptr := 0;
        CursorAtStart(view, fsize, clust);
        IsReady(fsize);
      } else {
        var ok := SeekInMap(target);
        if !ok {
          err := FR_INT_ERR;
        }
      }
      SameFileFacts(v, view);
      MapKept();
      SameFileBytes(v, view, fsize, 0, fsize);
      ContentIs();
      if err == FR_OK {
        ContentFacts();
      }
      res := err;
    }

    lemma ContentIs()
      ensures Content() == BytesFrom(view, 0, fsize)
    {
    }

    lemma NoSector(g: Geometry)
      ensures 2 <= g.nFatent < DWORD_SIZE - 2 ==> Clust2Sect(g, 0) == 0
    {
    }
  }
}
