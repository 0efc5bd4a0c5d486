/**
 The FSINFO sector and the reserved area: `sync_fs` writes it right behind the boot sector, and a mount
 accepts volumes where the FAT begins there.
 */
module SyncInfo {
  import opened Bits
  import opened Layout
  import opened Chains
  import opened FreeSpace
  import opened Mount
  import opened VolumeModel

  /** The FSINFO sector is a sector of the FAT exactly with one reserved sector. */
  lemma InfoInFatIff(b: Bpb, bsect: nat)
    requires Sized(b) && Acceptable(b) && NoWrap(b, bsect)
    ensures var g := GeometryOf(b, bsect); g.volbase + 1 == g.fatbase <==> b.rsvdSecCnt == 1
  {
    hide *;
    PlainGeometry(b, bsect);
  }

  /** 69452 clusters of one sector, with the FAT right behind the boot sector. */
  lemma OneReserved(b: Bpb)
    requires b == Bpb(512, 1, 1, 1, 0, 0, 70000, 0, 547, 2, 1)
    ensures Sized(b) && Acceptable(b) && NoWrap(b, 63) && SubType(Clusters(b)) == Fat32 && b.fsInfo == 1
    ensures Fits(GeometryOf(b, 63), 70063) && GeometryOf(b, 63).volbase + 1 == GeometryOf(b, 63).fatbase
  {
    OneReservedNumbers(b);
    hide *;
    MountedOnDrive(b, 63, 70063);
    InfoInFatIff(b, 63);
  }

  lemma OneReservedNumbers(b: Bpb)
    requires b == Bpb(512, 1, 1, 1, 0, 0, 70000, 0, 547, 2, 1)
    ensures Sized(b) && Clusters(b) == 69452 && SubType(Clusters(b)) == Fat32 && Total(b) == 70000
    ensures Acceptable(b) && NoWrap(b, 63)
    ensures b.fsInfo == 1 && b.rsvdSecCnt == 1 && EOC == 0x0FFF_FFFF && INVALID_SECTOR == 0xFFFF_FFFF
  {
    assert And(1, 0) == 0;
  }

  /** `f_getfree` on a volume that was just mounted without a plausible counter, then `sync_fs`: the
      clusters stay in use exactly if the FSINFO sector has a place of its own. */
  method CountThenSync(fs: Volume)
    requires fs.Valid() && fs.g.fsType == Fat32 && !fs.fsiOff && fs.freeClust > fs.g.nFatent - 2
    modifies fs`wflag, fs`winsect, fs`disk, fs`img, fs`fat, fs`freeClust, fs`fsiDirty, fs.win
    ensures !fs.wflag && |fs.fat| == |old(fs.fat)|
    ensures !fs.InfoInFat() ==> fs.Valid() && fs.fat == old(fs.fat)
    ensures fs.InfoInFat() ==> forall c: nat :: 2 <= c <= 120 && c < |fs.fat| ==> fs.fat[c] == 0
    ensures (exists c: nat :: 2 <= c <= 120 && c < |old(fs.fat)| && old(fs.fat)[c] != 0) ==>
      (fs.fat == old(fs.fat) <==> !fs.InfoInFat())
  {
    hide *;
    DueIs(fs);
    var _, _ := fs.GetFree();
    DueIs(fs);
    ghost var F := fs.fat;
    fs.SyncFs();
    if fs.InfoInFat() {
      ClustersLost(F, fs.fat, fs.freeClust, fs.lastClust);
      SameLength(F, fs.fat, fs.freeClust, fs.lastClust);
    }
  }

  lemma DueIs(fs: Volume)
    ensures fs.InfoDue() <==> fs.g.fsType == Fat32 && fs.fsiDirty && !fs.fsiOff
  {
  }

  lemma SameLength(F: FatSeq, G: FatSeq, free: nat, last: nat)
    requires Overwritten(F, G, free, last)
    ensures |G| == |F|
  {
  }
}
