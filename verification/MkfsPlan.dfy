/**
 Formatting, the arithmetic: `f_mkfs` picks the cluster size, the FAT sub-type and the size of each
 region, and a later mount works them out again from the BIOS parameter block.
 */
module MkfsPlan {
  import opened Bits
  import opened Layout
  import opened Mount

  const N_ROOTDIR: nat := 512
  const VST: seq<nat> := [1024, 512, 256, 128, 64, 32, 16, 8, 4, 2, 0]
  const CST: seq<nat> := [32768, 16384, 8192, 4096, 2048, 16384, 8192, 4096, 2048, 1024, 512]

  datatype Plan = Plan(
    fmt: FatType,
    au: nat,         // sectors per cluster
    bVol: nat,       // first sector of the volume
    nVol: nat,       // sectors of the volume
    nRsv: nat,       // reserved sectors
    nFat: nat,       // sectors of the FAT
    nDir: nat,       // sectors of the static root directory
    nClst: nat)      // clusters, a DWORD

  /** Sectors before the data area. */
  function Head(p: Plan): nat { p.nRsv + p.nFat + p.nDir }

  /** `a & ~m` */
  function AndNot(a: nat, m: nat): (r: nat)
    ensures r <= a
  {
    AndBelow(a, m);
    a - And(a, m)
  }

  lemma {:induction false} AndBelow(a: nat, m: nat)
    ensures And(a, m) <= a && And(a, m) <= m
  {
    if a != 0 && m != 0 {
      AndBelow(a / 2, m / 2);
    }
  }

  // ---- the cluster size ----

  /** The cluster size in bytes for `vs`, from entry `i` of the tables on. */
  function AutoAu(vs: nat, i: nat): nat
    requires i < |VST|
    decreases |VST| - i
  {
    if i + 1 < |VST| && vs < VST[i] then AutoAu(vs, i + 1) else CST[i]
  }

  /** The cluster size in sectors, for the size `au` the caller asks for, in bytes or sectors. */
  function AuFor(au: nat, nVol: nat): nat {
    var b := Asked(au, nVol);
    var c := if b >= SS then b / SS else b;
    if c > 128 then 128 else c
  }

  /** The size asked for, if it is a power of two, or else the one picked for the size of the volume. */
  function Asked(au: nat, nVol: nat): nat {
    if au == 0 || And(au, au - 1) != 0 then AutoAu(nVol / 2000, 0) else au
  }

  lemma {:induction false} AutoAuIsListed(vs: nat, i: nat)
    requires i < |VST|
    ensures AutoAu(vs, i) in CST
    decreases |VST| - i
  {
    if i + 1 < |VST| && vs < VST[i] {
      AutoAuIsListed(vs, i + 1);
    }
  }

  lemma ListedAu(b: nat)
    requires b in CST
    ensures IsPow2(b) && b >= 512
  {
    assert Pow2(9) == 512;
    assert Pow2(10) == 1024 && Pow2(11) == 2048 && Pow2(12) == 4096;
    assert Pow2(13) == 8192 && Pow2(14) == 16384 && Pow2(15) == 32768;
  }

  /** Whatever the caller asks for, the cluster size is one that a mount accepts. */
  lemma AuIsSound(au: nat, nVol: nat)
    ensures IsPow2(AuFor(au, nVol)) && 1 <= AuFor(au, nVol) <= 128
    ensures And(AuFor(au, nVol), AuFor(au, nVol) - 1) == 0
  {
    hide *;
    var b := Asked(au, nVol);
    AskedIsPower(au, nVol);
    SmallPowers();
    if b >= 512 {
      HalvedNine(b);
    }
    AuIs(au, nVol);
    MaskIsMod(AuFor(au, nVol), AuFor(au, nVol));
  }

  lemma SmallPowers()
    ensures IsPow2(128)
  {
    assert Pow2(7) == 128;
  }

  lemma AuIs(au: nat, nVol: nat)
    ensures var b := Asked(au, nVol);
      AuFor(au, nVol) == if b < 512 then (if b > 128 then 128 else b) else if b / 512 > 128 then 128 else b / 512
  {
    hide Asked;
  }

  lemma AskedIsPower(au: nat, nVol: nat)
    ensures IsPow2(Asked(au, nVol)) && Asked(au, nVol) >= 1
  {
    if au != 0 && And(au, au - 1) == 0 {
      hide And;
      OneBitSet(au);
    } else {
      hide And;
      AutoAuIsListed(nVol / 2000, 0);
      ListedAu(Asked(au, nVol));
    }
  }

  lemma HalvedNine(b: nat)
    requires IsPow2(b) && b >= 512
    ensures IsPow2(b / 512) && b / 512 >= 1
  {
    var k: nat :| b == Pow2(k);
    assert Pow2(9) == 512;
    if k < 9 {
      assert Pow2(8) == 256;
      Pow2Sum(k, 8 - k);
      MulMonotonic(Pow2(k), 1, Pow2(8 - k));
    } else {
      Pow2Sum(9, k - 9);
      ModUnique(b, 512, Pow2(k - 9), 0);
    }
  }

  // ---- the regions ----

  /** Sectors of a FAT for `n` clusters, on a `DWORD`. */
  function FatFor(fmt: FatType, n: nat): nat {
    match fmt
    case Fat12 => ((n * 3 + 1) / 2 + 3 + SS - 1) / SS
    case Fat16 => (n * 2 + 4 + SS - 1) / SS
    case Fat32 => (n * 4 + 8 + SS - 1) % DWORD_SIZE / SS
  }

  /** The size of a flash block, 1 if the drive does not tell or tells nonsense. */
  function Block(blk: nat): (r: nat)
    ensures 1 <= r <= 32768
  {
    if blk == 0 || blk > 32768 then 1 else blk
  }

  /** Sectors skipped so that the data area starts at a block boundary. */
  function Gap(start: nat, blk: nat): (r: nat)
    requires blk >= 1
    ensures r < blk
  {
    AndBelow(start + blk - 1, blk - 1);
    AndNot(start + blk - 1, blk - 1) - start
  }

  datatype Planned = Refused | Accepted(p: Plan)

  /** `n` sectors in clusters of `au`; the size of a cluster is never 0. */
  function InClusters(n: nat, au: nat): (r: nat)
    ensures r <= n
  {
    if au == 0 then 0
    else
      QuotientBelow(n, au);
      n / au
  }

  lemma QuotientBelow(n: nat, au: nat)
    requires au >= 1
    ensures 0 <= n / au <= n
  {
  }

  /** The plan before the data area is moved to a block boundary. */
  function Draft(sfd: nat, au: nat, nDisk: nat): Plan
    requires nDisk >= 128
  {
    var bVol := if sfd != 0 then 0 else 63;
    var nVol := nDisk - bVol;
    var a := AuFor(au, nVol);
    var n := InClusters(nVol, a);
    var fmt := SubType(n);
    Plan(fmt, a, bVol, nVol, if fmt == Fat32 then 32 else 1, FatFor(fmt, n), if fmt == Fat32 then 0 else 32, n)
  }

  /** Sectors left for the data area, on a `DWORD`. */
  function Left(p: Plan): nat { (p.nVol + DWORD_SIZE - Head(p)) % DWORD_SIZE }

  /** The draft moved up by `gap` sectors, and its clusters counted again. */
  function Moved(d: Plan, gap: nat): Plan {
    var p := if d.fmt == Fat32 then d.(nRsv := d.nRsv + gap) else d.(nFat := d.nFat + gap);
    p.(nClst := InClusters(Left(p), p.au))
  }

  /** The plan `f_mkfs` follows on a drive of `nDisk` sectors. */
  function PlanOf(sfd: nat, au: nat, nDisk: nat, blk: nat): Planned
    requires 128 <= nDisk < DWORD_SIZE
  {
    var d := Draft(sfd, au, nDisk);
    if d.nVol < Head(d) + d.au then Refused
    else
      var p := Moved(d, Gap(d.bVol + Head(d), Block(blk)));
      if (p.fmt == Fat16 && p.nClst < MIN_FAT16) || (p.fmt == Fat32 && p.nClst < MIN_FAT32) then Refused
      else Accepted(p)
  }

  // ---- what a later mount makes of the plan ----

  /** The fields of the BIOS parameter block that carry the plan. */
  function BpbOf(p: Plan): Bpb {
    Bpb(SS, p.au, p.nRsv, 1, if p.fmt == Fat32 then 0 else N_ROOTDIR,
      if p.nVol < 0x1_0000 then p.nVol else 0, if p.nVol < 0x1_0000 then 0 else p.nVol,
      if p.fmt == Fat32 then 0 else p.nFat, if p.fmt == Fat32 then p.nFat else 0,
      if p.fmt == Fat32 then 2 else 0, if p.fmt == Fat32 then 1 else 0)
  }

  /** After the move there is room for at least one cluster. */
  predicate Roomy(p: Plan) { Head(p) + p.au <= p.nVol }

  /** Sectors over clusters: what the FAT is sized for, before any sector is taken off. */
  function Spanned(p: Plan): nat { InClusters(p.nVol, p.au) }

  /** The size of the FAT in bytes does not wrap around. */
  predicate Countable(p: Plan) { Laps(Spanned(p)) == 0 }

  /** The size of the FAT in bytes wraps around as often in `f_mkfs` as in a mount, which counts
      the clusters that are left. */
  predicate SameLaps(p: Plan) { Laps(p.nClst) == Laps(Spanned(p)) }

  /** What is known of every plan, `n` clusters in its draft. */
  ghost predicate Regular(p: Plan, n: nat) {
    && IsPow2(p.au) && 1 <= p.au <= 128 && And(p.au, p.au - 1) == 0
    && n == p.nVol / p.au && p.fmt == SubType(n)
    && 65 <= p.nVol < DWORD_SIZE
    && p.nRsv < 0x1_0000 && (if p.fmt == Fat32 then p.nRsv >= 32 else p.nRsv == 1)
    && p.nDir == (if p.fmt == Fat32 then 0 else 32)
    && FatFor(p.fmt, n) <= p.nFat && (p.fmt == Fat32 ==> p.nFat == FatFor(p.fmt, n))
    && (if p.fmt == Fat32 then p.nFat < 0x100_0000 else 1 <= p.nFat < 0x1_0000)
    && p.nClst == (p.nVol + DWORD_SIZE - Head(p)) % DWORD_SIZE / p.au
    && (p.fmt == Fat16 ==> p.nClst >= MIN_FAT16) && (p.fmt == Fat32 ==> p.nClst >= MIN_FAT32)
  }

  lemma DraftIs(sfd: nat, au: nat, nDisk: nat)
    requires 128 <= nDisk < DWORD_SIZE
    ensures var d := Draft(sfd, au, nDisk);
      && d.bVol == (if sfd != 0 then 0 else 63) && d.bVol + d.nVol == nDisk && d.nVol >= 65
      && d.au == AuFor(au, d.nVol) >= 1 && d.nClst == d.nVol / d.au && d.fmt == SubType(d.nClst)
      && d.nRsv == (if d.fmt == Fat32 then 32 else 1) && d.nDir == (if d.fmt == Fat32 then 0 else 32)
      && d.nFat == FatFor(d.fmt, d.nClst)
  {
    hide *;
    DraftShape(sfd, au, nDisk);
    AuIsSound(au, Draft(sfd, au, nDisk).nVol);
  }

  lemma DraftShape(sfd: nat, au: nat, nDisk: nat)
    requires 128 <= nDisk < DWORD_SIZE
    ensures var d := Draft(sfd, au, nDisk);
      && d.bVol == (if sfd != 0 then 0 else 63) && d.bVol + d.nVol == nDisk && d.nVol >= 65
      && d.au == AuFor(au, d.nVol) && (d.au >= 1 ==> d.nClst == d.nVol / d.au) && d.fmt == SubType(d.nClst)
      && d.nRsv == (if d.fmt == Fat32 then 32 else 1) && d.nDir == (if d.fmt == Fat32 then 0 else 32)
      && d.nFat == FatFor(d.fmt, d.nClst)
  {
    hide SubType, FatFor, AuFor;
  }

  lemma MovedIs(d: Plan, gap: nat)
    requires d.au >= 1
    ensures var p := Moved(d, gap);
      && p.fmt == d.fmt && p.au == d.au && p.bVol == d.bVol && p.nVol == d.nVol && p.nDir == d.nDir
      && p.nRsv == (if d.fmt == Fat32 then d.nRsv + gap else d.nRsv)
      && p.nFat == (if d.fmt == Fat32 then d.nFat else d.nFat + gap)
      && Head(p) == Head(d) + gap
      && p.nClst == (p.nVol + DWORD_SIZE - Head(p)) % DWORD_SIZE / p.au
  {
  }

  lemma PlanIs(sfd: nat, au: nat, nDisk: nat, blk: nat, p: Plan)
    requires 128 <= nDisk < DWORD_SIZE && PlanOf(sfd, au, nDisk, blk) == Accepted(p)
    ensures var d := Draft(sfd, au, nDisk);
      && p == Moved(d, Gap(d.bVol + Head(d), Block(blk))) && Gap(d.bVol + Head(d), Block(blk)) < 32768
      && d.nVol >= Head(d) + d.au
    ensures p.fmt == Fat16 ==> p.nClst >= MIN_FAT16
    ensures p.fmt == Fat32 ==> p.nClst >= MIN_FAT32
  {
    hide Draft, Head, Moved;
  }

  lemma PlanIsRegular(sfd: nat, au: nat, nDisk: nat, blk: nat, p: Plan)
    requires 128 <= nDisk < DWORD_SIZE && PlanOf(sfd, au, nDisk, blk) == Accepted(p)
    ensures p.au >= 1 && Regular(p, p.nVol / p.au)
    ensures p.bVol == (if sfd != 0 then 0 else 63) && p.bVol + p.nVol == nDisk
  {
    hide *;
    var d := Draft(sfd, au, nDisk);
    DraftIs(sfd, au, nDisk);
    PlanIs(sfd, au, nDisk, blk, p);
    MovedIs(d, Gap(d.bVol + Head(d), Block(blk)));
    AuIsSound(au, d.nVol);
    FatForBound(d.fmt, d.nClst);
    DwordSize();
    IsRegular(p, d.nClst);
  }

  lemma IsRegular(p: Plan, n: nat)
    requires IsPow2(p.au) && 1 <= p.au <= 128 && And(p.au, p.au - 1) == 0
    requires n == p.nVol / p.au && p.fmt == SubType(n) && 65 <= p.nVol < DWORD_SIZE
    requires p.nRsv < 0x1_0000 && (if p.fmt == Fat32 then p.nRsv >= 32 else p.nRsv == 1)
    requires p.nDir == if p.fmt == Fat32 then 0 else 32
    requires FatFor(p.fmt, n) <= p.nFat && (p.fmt == Fat32 ==> p.nFat == FatFor(p.fmt, n))
    requires if p.fmt == Fat32 then p.nFat < 0x100_0000 else 1 <= p.nFat < 0x1_0000
    requires p.nClst == (p.nVol + DWORD_SIZE - Head(p)) % DWORD_SIZE / p.au
    requires p.fmt == Fat16 ==> p.nClst >= MIN_FAT16
    requires p.fmt == Fat32 ==> p.nClst >= MIN_FAT32
    ensures Regular(p, n)
  {
    hide SubType, FatFor, IsPow2, And, Head;
  }

  lemma FatForBound(fmt: FatType, n: nat)
    requires fmt == SubType(n)
    ensures fmt == Fat32 ==> FatFor(fmt, n) <= 0x80_0000
    ensures fmt != Fat32 ==> 1 <= FatFor(fmt, n) <= 0x101
  {
  }

  /** A FAT sized for `n` clusters is large enough for a mount that counts a few less, `m`, exactly
      if both sizes wrap around equally often. */
  lemma FatIsEnough(fmt: FatType, n: nat, m: nat, fsize: nat)
    requires fmt == SubType(n) && m <= n < m + 0x101_0000 && fsize >= FatFor(fmt, n)
    requires fmt == Fat32 ==> fsize == FatFor(fmt, n)
    ensures fsize >= (NeededBytes(fmt, m + 2) + (SS - 1)) % DWORD_SIZE / SS <==> Laps(m) == Laps(n)
  {
    if fmt == Fat12 {
      Needed12(n, m);
    } else if fmt == Fat32 {
      hide SubType;
      ModAgain((m + 2) * 4, 511);
      LapsLess(m * 4 + 519, n * 4 + 519);
    }
  }

  lemma ModAgain(a: nat, b: nat)
    ensures (a % 0x1_0000_0000 + b) % 0x1_0000_0000 == (a + b) % 0x1_0000_0000
  {
    var q := a / 0x1_0000_0000;
    var r := a % 0x1_0000_0000 + b;
    DivMod(r, 0x1_0000_0000);
    ModUnique(a + b, 0x1_0000_0000, q + r / 0x1_0000_0000, r % 0x1_0000_0000);
  }

  /** Between two numbers that are close the lower part shrinks exactly at a multiple. */
  lemma LapsLess(x: nat, y: nat)
    requires x <= y < x + 0x500_0000
    ensures y % 0x1_0000_0000 / 512 >= x % 0x1_0000_0000 / 512 <==> x / 0x1_0000_0000 == y / 0x1_0000_0000
  {
  }

  /** Every entry of the planned volume lies in its FAT exactly if the size does not wrap around. */
  lemma FatHoldsAll(fmt: FatType, n: nat, m: nat, fsize: nat)
    requires fmt == SubType(n) && m <= n < m + 0x101_0000 && fsize >= FatFor(fmt, n)
    requires fmt == Fat32 ==> fsize == FatFor(fmt, n)
    ensures EntryEnd(fmt, m + 1) <= fsize * SS <==> Laps(n) == 0
  {
    if fmt == Fat12 {
      Needed12(n, m);
    }
  }

  lemma Needed12(n: nat, m: nat)
    requires m <= n
    ensures (m + 2) * 3 / 2 + (m + 2) % 2 <= (n * 3 + 1) / 2 + 3
  {
  }

  /** The sums a mount works out from the parameter block are those of the plan. */
  lemma MountSums(p: Plan, n: nat)
    requires Regular(p, n)
    ensures Sized(BpbOf(p)) && Total(BpbOf(p)) == p.nVol && FatSize(BpbOf(p)) == p.nFat
    ensures SysSectors(BpbOf(p)) == Head(p) < DWORD_SIZE
    ensures BpbOf(p).rootEntCnt % 16 == 0 && (p.fmt == Fat32 <==> BpbOf(p).rootEntCnt == 0)
    ensures Clusters(BpbOf(p)) == if p.nVol < Head(p) then 0 else (p.nVol - Head(p)) / p.au
  {
    RegularFacts(p, n);
    RegularBounds(p, n);
    hide *;
    DwordSize();
    HeadIs(p);
    BpbSums(p);
    var b := BpbOf(p);
    SysPlain(b);
    ClustersAre(b);
  }

  lemma RegularBounds(p: Plan, n: nat)
    requires Regular(p, n)
    ensures p.nVol < DWORD_SIZE && p.nRsv < 0x1_0000 && 65 <= p.nVol
    ensures if p.fmt == Fat32 then p.nFat < 0x100_0000 else 1 <= p.nFat < 0x1_0000
  {
    hide And, IsPow2, FatFor, SubType, Head;
  }

  lemma BpbSums(p: Plan)
    requires p.au < 0x100 && p.nVol < DWORD_SIZE && p.nRsv < 0x1_0000
    requires if p.fmt == Fat32 then p.nFat < 0x100_0000 else 1 <= p.nFat < 0x1_0000
    ensures var b := BpbOf(p);
      && Sized(b) && Total(b) == p.nVol && FatSize(b) == p.nFat && b.numFats == 1 && b.rsvdSecCnt == p.nRsv
      && b.secPerClus == p.au && b.rootEntCnt == (if p.fmt == Fat32 then 0 else 512)
  {
  }

  lemma ClustersAre(b: Bpb)
    requires b.secPerClus >= 1
    ensures Clusters(b) == if Total(b) < SysSectors(b) then 0 else (Total(b) - SysSectors(b)) / b.secPerClus
  {
    hide SysSectors, Total;
  }

  lemma CountedAgain(p: Plan, n: nat)
    requires Regular(p, n) && Roomy(p)
    ensures p.nClst == (p.nVol - Head(p)) / p.au && SubType(p.nClst) == p.fmt
    ensures 1 <= p.nClst <= n < p.nClst + 0x101_0000
  {
    hide *;
    RegularFacts(p, n);
    RegularBounds(p, n);
    RegularCount(p, n);
    RoomyIs(p);
    HeadIs(p);
    CountLeft(p.nVol, Head(p), p.au);
    SubTypeLeft(n, p.nClst);
  }

  lemma RegularCount(p: Plan, n: nat)
    requires Regular(p, n)
    ensures p.nClst == (p.nVol + DWORD_SIZE - Head(p)) % DWORD_SIZE / p.au && p.nVol < DWORD_SIZE
    ensures (p.fmt == Fat16 ==> p.nClst >= MIN_FAT16) && (p.fmt == Fat32 ==> p.nClst >= MIN_FAT32)
  {
    hide And, IsPow2, FatFor, Head, SubType;
  }

  lemma SubTypeLeft(n: nat, m: nat)
    requires m <= n && (SubType(n) == Fat16 ==> m >= MIN_FAT16) && (SubType(n) == Fat32 ==> m >= MIN_FAT32)
    ensures SubType(m) == SubType(n)
  {
  }

  /** What is left of `v` sectors without `h`, counted in clusters. */
  lemma CountLeft(v: nat, h: nat, a: nat)
    requires a >= 1 && h + a <= v < DWORD_SIZE
    ensures (v + DWORD_SIZE - h) % DWORD_SIZE / a == (v - h) / a
    ensures 1 <= (v - h) / a <= v / a <= (v - h) / a + h + 1
  {
    Small(v - h);
    ModUnique(v + DWORD_SIZE - h, DWORD_SIZE, 1, v - h);
    DivMonotonic(v - h, v, a);
    DivMonotonic(a, v - h, a);
    ModUnique(a, a, 1, 0);
    DivBack(v, h, a);
  }

  lemma DivBack(v: nat, h: nat, a: nat)
    requires a >= 1 && h <= v
    ensures v / a <= (v - h) / a + h + 1
  {
    var q, r := (v - h) / a, (v - h) % a;
    DivMod(v - h, a);
    MulMonotonic(h, 1, a);
    assert v < a * q + a + h * a == (q + h + 1) * a;
    DivMod(v, a);
    if v / a > q + h + 1 {
      MulMonotonic(a, q + h + 2, v / a);
    }
  }

  lemma NoCluster(x: nat, a: nat)
    requires a >= 1
    ensures x / a == 0 <==> x < a
  {
    if x < a {
      ModUnique(x, a, 0, x);
    } else {
      DivMonotonic(a, x, a);
      ModUnique(a, a, 1, 0);
    }
  }

  /** A mount accepts the plan exactly if the data area, moved to a block boundary, still has room
      for one cluster, and the sizes of the FAT wrap around equally often; then it finds the
      sub-type and the number of clusters of the plan. */
  lemma PlanMounts(sfd: nat, au: nat, nDisk: nat, blk: nat, p: Plan)
    requires 128 <= nDisk < DWORD_SIZE && PlanOf(sfd, au, nDisk, blk) == Accepted(p)
    ensures Acceptable(BpbOf(p)) <==> Roomy(p) && SameLaps(p)
    ensures Roomy(p) ==> Clusters(BpbOf(p)) == p.nClst && SubType(p.nClst) == p.fmt
  {
    hide *;
    PlanIsRegular(sfd, au, nDisk, blk, p);
    RegularMounts(p, p.nVol / p.au);
  }

  lemma RegularFacts(p: Plan, n: nat)
    requires Regular(p, n)
    ensures 1 <= p.au <= 128 && And(p.au, p.au - 1) == 0 && n == p.nVol / p.au && p.fmt == SubType(n) && p.nRsv >= 1
    ensures p.nFat >= FatFor(p.fmt, n) && (p.fmt == Fat32 ==> p.nFat == FatFor(p.fmt, n))
    ensures p.nDir == if p.fmt == Fat32 then 0 else 32
  {
    hide And, SubType, FatFor;
  }

  lemma RegularMounts(p: Plan, n: nat)
    requires Regular(p, n)
    ensures Acceptable(BpbOf(p)) <==> Roomy(p) && SameLaps(p)
    ensures Roomy(p) ==> Clusters(BpbOf(p)) == p.nClst && SubType(p.nClst) == p.fmt
  {
    hide *;
    RegularFacts(p, n);
    MountSums(p, n);
    BlockIs(p);
    RoomyIs(p);
    SpannedIs(p);
    if p.nVol >= Head(p) {
      NoCluster(p.nVol - Head(p), p.au);
    }
    if Roomy(p) {
      CountedAgain(p, n);
      FatIsEnough(p.fmt, n, p.nClst, p.nFat);
    }
    AcceptableIs(BpbOf(p));
  }

  lemma SpannedIs(p: Plan)
    ensures Countable(p) <==> Laps(Spanned(p)) == 0
    ensures SameLaps(p) <==> Laps(p.nClst) == Laps(Spanned(p))
    ensures p.au >= 1 ==> Spanned(p) == p.nVol / p.au
  {
    hide Laps;
  }

  lemma BlockIs(p: Plan)
    ensures BpbOf(p).bytsPerSec == SS && BpbOf(p).secPerClus == p.au && BpbOf(p).numFats == 1
    ensures BpbOf(p).rsvdSecCnt == p.nRsv
  {
  }

  lemma RoomyIs(p: Plan)
    ensures Roomy(p) <==> Head(p) + p.au <= p.nVol
  {
  }

  lemma AcceptableIs(b: Bpb)
    requires b.bytsPerSec == SS && b.numFats == 1 && b.secPerClus != 0 && And(b.secPerClus, b.secPerClus - 1) == 0
    requires b.rootEntCnt % 16 == 0 && b.rsvdSecCnt != 0
    ensures Acceptable(b) <==>
      && Total(b) >= SysSectors(b) && Clusters(b) != 0
      && (SubType(Clusters(b)) == Fat32 <==> b.rootEntCnt == 0)
      && FatSize(b) >= (NeededBytes(SubType(Clusters(b)), Clusters(b) + 2) + (SS - 1)) % DWORD_SIZE / SS
  {
    hide And, SysSectors, Clusters, Total, FatSize, NeededBytes, SubType;
  }

  /** The geometry of a formatted volume, as the plan has it. */
  function PlannedGeometry(p: Plan): Geometry {
    Geometry(p.fmt, p.au, 1, if p.fmt == Fat32 then 0 else N_ROOTDIR, p.nClst + 2, p.nFat, p.bVol, p.bVol + p.nRsv,
      if p.fmt == Fat32 then 2 else p.bVol + p.nRsv + p.nFat, p.bVol + Head(p))
  }

  /** A mount computes the regions of the plan. Every FAT entry lies in the FAT exactly if its size
      does not wrap around, and cluster numbers fit an entry exactly if there are not too many. */
  lemma PlanGeometry(sfd: nat, au: nat, nDisk: nat, blk: nat, p: Plan)
    requires 128 <= nDisk < DWORD_SIZE && PlanOf(sfd, au, nDisk, blk) == Accepted(p)
    requires Roomy(p) && SameLaps(p)
    ensures Acceptable(BpbOf(p)) && GeometryOf(BpbOf(p), p.bVol) == PlannedGeometry(p)
    ensures nDisk < INVALID_SECTOR ==> (Placed(PlannedGeometry(p), nDisk) <==> Countable(p))
    ensures nDisk < INVALID_SECTOR ==> (Fits(PlannedGeometry(p), nDisk) <==> p.nClst + 2 <= EOC)
  {
    hide *;
    DwordSize();
    PlanIsRegular(sfd, au, nDisk, blk, p);
    var n := p.nVol / p.au;
    PlanMounts(sfd, au, nDisk, blk, p);
    PlanDoesNotWrap(p, n, nDisk);
    MountSums(p, n);
    PlannedBases(p, n);
    PlanHoldsAll(p, n);
    if nDisk < INVALID_SECTOR {
      MountedFits(BpbOf(p), p.bVol);
    }
  }

  lemma PlanHoldsAll(p: Plan, n: nat)
    requires Regular(p, n) && Roomy(p)
    ensures var g := PlannedGeometry(p);
      EntryEnd(g.fsType, g.nFatent - 1) <= g.fsize * SS <==> Countable(p)
  {
    hide *;
    RegularFacts(p, n);
    CountedAgain(p, n);
    SpannedIs(p);
    PlannedFat(p);
    FatHoldsAll(p.fmt, n, p.nClst, p.nFat);
  }

  lemma PlannedFat(p: Plan)
    ensures var g := PlannedGeometry(p); g.fsType == p.fmt && g.fsize == p.nFat && g.nFatent == p.nClst + 2
  {
  }

  lemma PlanDoesNotWrap(p: Plan, n: nat, nDisk: nat)
    requires Regular(p, n) && Roomy(p) && p.bVol + p.nVol == nDisk < DWORD_SIZE
    ensures NoWrap(BpbOf(p), p.bVol)
  {
    hide *;
    DwordSize();
    MountSums(p, n);
    RegularFacts(p, n);
    RoomyIs(p);
    BlockIs(p);
    HeadIs(p);
    EntryFields(p);
    IsNoWrap(BpbOf(p), p.bVol);
  }

  lemma PlannedBases(p: Plan, n: nat)
    requires Regular(p, n) && Acceptable(BpbOf(p)) && NoWrap(BpbOf(p), p.bVol)
    requires Clusters(BpbOf(p)) == p.nClst && SubType(p.nClst) == p.fmt
    ensures GeometryOf(BpbOf(p), p.bVol) == PlannedGeometry(p)
  {
    hide *;
    MountSums(p, n);
    RegularFacts(p, n);
    PlainGeometry(BpbOf(p), p.bVol);
    BlockIs(p);
    HeadIs(p);
    EntryFields(p);
    RootCluster(BpbOf(p), p.bVol);
    SameGeometry(p);
  }

  lemma HeadIs(p: Plan)
    ensures Head(p) == p.nRsv + p.nFat + p.nDir
  {
  }

  lemma EntryFields(p: Plan)
    ensures BpbOf(p).rootEntCnt == if p.fmt == Fat32 then 0 else 512
    ensures p.fmt == Fat32 ==> BpbOf(p).rootClus == 2
  {
  }

  lemma IsNoWrap(b: Bpb, bsect: nat)
    requires b.numFats == 1 && b.rsvdSecCnt + FatSize(b) + b.rootEntCnt / 16 < DWORD_SIZE
    requires bsect + Total(b) < DWORD_SIZE
    ensures NoWrap(b, bsect)
  {
    hide FatSize, Total;
  }

  lemma RootCluster(b: Bpb, bsect: nat)
    ensures SubType(Clusters(b)) == Fat32 ==> GeometryOf(b, bsect).dirbase == b.rootClus
  {
    hide Clusters, SubType;
  }

  lemma SameGeometry(p: Plan)
    requires var g := GeometryOf(BpbOf(p), p.bVol);
      && g.fsType == p.fmt && g.csize == p.au && g.nFats == 1 && g.nRootdir == BpbOf(p).rootEntCnt
      && g.nFatent == p.nClst + 2
      && g.fsize == p.nFat && g.volbase == p.bVol && g.fatbase == p.bVol + p.nRsv
      && g.dirbase == (if p.fmt == Fat32 then 2 else p.bVol + p.nRsv + p.nFat) && g.database == p.bVol + Head(p)
    ensures GeometryOf(BpbOf(p), p.bVol) == PlannedGeometry(p)
  {
    hide GeometryOf, Head;
  }

  /** The move never shrinks the part before the data area, and without flash blocks it does nothing. */
  lemma RoomWithoutBlocks(sfd: nat, au: nat, nDisk: nat, blk: nat, p: Plan)
    requires 128 <= nDisk < DWORD_SIZE && PlanOf(sfd, au, nDisk, blk) == Accepted(p)
    requires Block(blk) == 1
    ensures Roomy(p)
  {
    hide *;
    var d := Draft(sfd, au, nDisk);
    DraftIs(sfd, au, nDisk);
    PlanIs(sfd, au, nDisk, blk, p);
    MovedIs(d, Gap(d.bVol + Head(d), Block(blk)));
    RoomyIs(p);
  }

  /** The data area starts at a block boundary, if the size of a block is a power of two. */
  lemma DataIsAligned(sfd: nat, au: nat, nDisk: nat, blk: nat, p: Plan)
    requires 128 <= nDisk < DWORD_SIZE && PlanOf(sfd, au, nDisk, blk) == Accepted(p)
    requires IsPow2(Block(blk))
    ensures (p.bVol + Head(p)) % Block(blk) == 0
  {
    hide *;
    var d := Draft(sfd, au, nDisk);
    DraftIs(sfd, au, nDisk);
    PlanIs(sfd, au, nDisk, blk, p);
    var s, b := d.bVol + Head(d), Block(blk);
    MovedIs(d, Gap(s, b));
    GapAligns(s, b);
  }

  lemma GapAligns(s: nat, b: nat)
    requires IsPow2(b) && b >= 1
    ensures (s + Gap(s, b)) % b == 0
  {
    MaskIsMod(s + b - 1, b);
    hide And;
    DivMod(s + b - 1, b);
    ModUnique(s + Gap(s, b), b, (s + b - 1) / b, 0);
  }

  /** A drive of 128 sectors in blocks of 128: formatting moves the data area to the very end. */
  lemma NoRoomLeft(sfd: nat)
    requires sfd != 0
    ensures PlanOf(sfd, 1, 128, 128) == Accepted(Plan(Fat12, 1, 0, 128, 1, 95, 32, 0))
    ensures !Acceptable(BpbOf(Plan(Fat12, 1, 0, 128, 1, 95, 32, 0)))
  {
    hide *;
    DwordSize();
    var p := Plan(Fat12, 1, 0, 128, 1, 95, 32, 0);
    SmallDraft(sfd);
    SmallGap();
    SmallMove(p);
    PlanFrom(sfd, 1, 128, 128, p);
    PlanMounts(sfd, 1, 128, 128, p);
  }

  lemma SmallMove(p: Plan)
    requires p == Plan(Fat12, 1, 0, 128, 1, 95, 32, 0)
    ensures var d := Plan(Fat12, 1, 0, 128, 1, 1, 32, 128); Head(d) == 34 && p == Moved(d, 94)
    ensures !Roomy(p)
  {
  }

  lemma SmallGap()
    ensures Block(128) == 128 && Gap(34, 128) == 94
  {
    assert Pow2(7) == 128;
    MaskIsMod(161, 128);
    hide And;
  }

  lemma SmallDraft(sfd: nat)
    requires sfd != 0
    ensures Draft(sfd, 1, 128) == Plan(Fat12, 1, 0, 128, 1, 1, 32, 128)
  {
    assert AuFor(1, 128) == 1;
  }

  /** The FAT of an accepted plan has room for every entry exactly if its size does not wrap around. */
  lemma FatIsWhole(sfd: nat, au: nat, nDisk: nat, blk: nat, p: Plan)
    requires 128 <= nDisk < DWORD_SIZE && PlanOf(sfd, au, nDisk, blk) == Accepted(p) && Roomy(p)
    ensures EntryEnd(p.fmt, p.nClst + 1) <= p.nFat * SS <==> Countable(p)
    ensures p.fmt == Fat32 ==> (4 * p.nClst + 8 <= p.nFat * SS <==> Countable(p))
  {
    hide *;
    PlanIsRegular(sfd, au, nDisk, blk, p);
    PlanHoldsAll(p, p.nVol / p.au);
    PlannedFat(p);
    EndOf32(p.nClst + 1);
  }

  lemma EndOf32(c: nat)
    ensures EntryEnd(Fat32, c) == 4 * c + 4
  {
  }

  /** 2^30 - 129 clusters of one sector: the size of the FAT wraps around to nothing, and no mount
      accepts the volume. */
  lemma WrappedFat(p: Plan)
    requires p == Plan(Fat32, 1, 0, 0x3FFF_FF7F, 32, 0, 0, 0x3FFF_FF5F)
    ensures PlanOf(1, p.au, p.nVol, 0) == Accepted(p) && Roomy(p) && !Acceptable(BpbOf(p))
  {
    assert Laps(0x3FFF_FF7F) == 1 && Laps(0x3FFF_FF5F) == 0;
    hide *;
    FlatPlan(p);
    SpannedIs(p);
    PlanMounts(1, p.au, p.nVol, 0, p);
  }

  /** 2^30 - 10 clusters of four sectors: a mount accepts the volume with a FAT of one sector. */
  lemma UndersizedFat(p: Plan)
    requires p == Plan(Fat32, 4, 0, 0xFFFF_FFFC, 32, 1, 0, 0x3FFF_FFF6)
    ensures PlanOf(1, p.au, p.nVol, 0) == Accepted(p) && Acceptable(BpbOf(p))
    ensures !Placed(PlannedGeometry(p), p.nVol)
  {
    hide *;
    Quarter();
    FlatPlan(p);
    SpannedIs(p);
    PlanGeometry(1, p.au, p.nVol, 0, p);
  }

  lemma Quarter()
    ensures 0xFFFF_FFFC / 4 == 0x3FFF_FFFF && (0xFFFF_FFFC - 33) / 4 == 0x3FFF_FFF6
    ensures Laps(0x3FFF_FFFF) == 1 && Laps(0x3FFF_FFF6) == 1
    ensures (0x3FFF_FFFF * 4 + 519) % DWORD_SIZE / SS == 1
    ensures 128 <= 0xFFFF_FFFC < DWORD_SIZE && 0xFFFF_FFFC < INVALID_SECTOR && MIN_FAT32 <= 0x3FFF_FFF6
  {
  }

  /** 0x10DD_FFDF clusters of one sector: a mount accepts the volume, and the end mark of its chains
      is the number of one of its clusters. */
  lemma TooManyClusters(p: Plan)
    requires p == Plan(Fat32, 1, 0, 0x1100_0000, 32, 0x22_0001, 0, 0x10DD_FFDF)
    ensures PlanOf(1, p.au, p.nVol, 0) == Accepted(p) && Acceptable(BpbOf(p))
    ensures Placed(PlannedGeometry(p), p.nVol) && !Fits(PlannedGeometry(p), p.nVol)
    ensures 2 <= Trunc(p.fmt, EOC) < PlannedGeometry(p).nFatent
  {
    hide *;
    MoreThanMark();
    FlatPlan(p);
    SpannedIs(p);
    PlannedFat(p);
    PlanGeometry(1, p.au, p.nVol, 0, p);
  }

  lemma MoreThanMark()
    ensures Laps(0x1100_0000) == 0 && Laps(0x10DD_FFDF) == 0 && EOC == 0x0FFF_FFFF == Trunc(Fat32, EOC)
    ensures (0x1100_0000 * 4 + 519) % DWORD_SIZE / SS == 0x22_0001
    ensures 128 <= 0x1100_0000 < DWORD_SIZE && 0x1100_0000 < INVALID_SECTOR && MIN_FAT32 <= 0x10DD_FFDF
  {
  }

  /** The plan of an unpartitioned FAT32 drive without flash blocks. */
  lemma FlatPlan(p: Plan)
    requires (p.au == 1 || p.au == 4) && 128 <= p.nVol < DWORD_SIZE && p.nVol / p.au >= MIN_FAT32
    requires p.fmt == Fat32 && p.bVol == 0 && p.nRsv == 32 && p.nDir == 0
    requires p.nFat == (p.nVol / p.au * 4 + 519) % DWORD_SIZE / SS && 32 + p.nFat + p.au <= p.nVol
    requires p.nClst == (p.nVol - 32 - p.nFat) / p.au && p.nClst >= MIN_FAT32
    ensures PlanOf(1, p.au, p.nVol, 0) == Accepted(p) && Roomy(p)
  {
    FlatDraft(p);
    FlatCount(p);
    var d := p.(nClst := p.nVol / p.au);
    FlatIs(p, d);
  }

  lemma FlatIs(p: Plan, d: Plan)
    requires 128 <= p.nVol < DWORD_SIZE && Draft(1, p.au, p.nVol) == d && d == p.(nClst := d.nClst)
    requires p.fmt == Fat32 && p.nClst == InClusters(Left(p), p.au) && p.nClst >= MIN_FAT32
    requires Head(p) + p.au <= p.nVol
    ensures PlanOf(1, p.au, p.nVol, 0) == Accepted(p) && Roomy(p)
  {
    hide *;
    FlatMove(p, d);
    SameHead(p, d);
    PlanFrom(1, p.au, p.nVol, 0, p);
    RoomyIs(p);
  }

  lemma SameHead(p: Plan, d: Plan)
    requires d == p.(nClst := d.nClst)
    ensures Head(d) == Head(p) && Left(d) == Left(p)
  {
  }

  lemma FlatMove(p: Plan, d: Plan)
    requires d == p.(nClst := d.nClst) && p.fmt == Fat32 && p.nClst == InClusters(Left(p), p.au)
    ensures p == Moved(d, Gap(d.bVol + Head(d), Block(0)))
  {
    NoBlock(d.bVol + Head(d));
    SameHead(p, d);
    MovedNowhere(d);
  }

  lemma MovedNowhere(d: Plan)
    requires d.fmt == Fat32
    ensures Moved(d, 0) == d.(nClst := InClusters(Left(d), d.au))
  {
    hide Head, Left, InClusters;
    assert d.(nRsv := d.nRsv + 0) == d;
  }

  lemma FlatCount(p: Plan)
    requires p.au >= 1 && p.nRsv == 32 && p.nDir == 0 && p.nVol < DWORD_SIZE && 32 + p.nFat + p.au <= p.nVol
    ensures InClusters(Left(p), p.au) == (p.nVol - 32 - p.nFat) / p.au && Head(p) == 32 + p.nFat
  {
    CountLeft(p.nVol, 32 + p.nFat, p.au);
  }

  lemma NoBlock(start: nat)
    ensures Gap(start, Block(0)) == 0
  {
  }

  lemma FlatDraft(p: Plan)
    requires (p.au == 1 || p.au == 4) && p.nVol >= 128 && p.nVol / p.au >= MIN_FAT32
    requires p.fmt == Fat32 && p.bVol == 0 && p.nRsv == 32 && p.nDir == 0
    requires p.nFat == (p.nVol / p.au * 4 + 519) % DWORD_SIZE / SS
    ensures Draft(1, p.au, p.nVol) == p.(nClst := p.nVol / p.au)
  {
    assert And(4, 3) == 0;
    assert AuFor(p.au, p.nVol) == p.au;
    hide AuFor, And;
  }

  lemma PlanFrom(sfd: nat, au: nat, nDisk: nat, blk: nat, p: Plan)
    requires 128 <= nDisk < DWORD_SIZE
    requires var d := Draft(sfd, au, nDisk);
      d.nVol >= Head(d) + d.au && p == Moved(d, Gap(d.bVol + Head(d), Block(blk)))
    requires p.fmt == Fat12 || (p.fmt == Fat32 && p.nClst >= MIN_FAT32)
    ensures PlanOf(sfd, au, nDisk, blk) == Accepted(p)
  {
    hide Draft, Head, Moved, Gap;
  }

  // ---- sizes ----

  /** The cluster size that is picked by default, in sectors, for a volume of `nVol` sectors. */
  lemma DefaultAu(nVol: nat)
    ensures AuFor(0, nVol) ==
      if nVol >= 2048000 then 64 else if nVol >= 1024000 then 32 else if nVol >= 512000 then 16
      else if nVol >= 256000 then 8 else if nVol >= 128000 then 4 else if nVol >= 64000 then 32
      else if nVol >= 32000 then 16 else if nVol >= 16000 then 8 else if nVol >= 8000 then 4
      else if nVol >= 4000 then 2 else 1
  {
    AutoAuIs(nVol / 2000);
    hide AutoAu;
    assert Asked(0, nVol) == AutoAu(nVol / 2000, 0);
  }

  lemma AutoAuIs(vs: nat)
    ensures AutoAu(vs, 0) ==
      if vs >= 1024 then 32768 else if vs >= 512 then 16384 else if vs >= 256 then 8192
      else if vs >= 128 then 4096 else if vs >= 64 then 2048 else if vs >= 32 then 16384
      else if vs >= 16 then 8192 else if vs >= 8 then 4096 else if vs >= 4 then 2048
      else if vs >= 2 then 1024 else 512
  {
    AutoAuStep(vs, 0);
    AutoAuStep(vs, 1);
    AutoAuStep(vs, 2);
    AutoAuStep(vs, 3);
    AutoAuStep(vs, 4);
    AutoAuStep(vs, 5);
    AutoAuStep(vs, 6);
    AutoAuStep(vs, 7);
    AutoAuStep(vs, 8);
    AutoAuStep(vs, 9);
    AutoAuStep(vs, 10);
    hide AutoAu;
  }

  lemma AutoAuStep(vs: nat, i: nat)
    requires i <= 10
    ensures AutoAu(vs, i) == if i < 10 && vs < VST[i] then AutoAu(vs, i + 1) else CST[i]
  {
  }

  /** A power of two that is asked for is the size in bytes, or in sectors if it is below 512. */
  lemma AskedAu(au: nat, nVol: nat)
    requires au != 0 && And(au, au - 1) == 0
    ensures AuFor(au, nVol) == if au >= 65536 then 128 else if au >= 512 then au / 512 else if au > 128 then 128 else au
  {
    hide And;
  }

  /** The bytes of a FAT for `n` clusters and the two reserved entries, with one byte or two to spare. */
  function FatBytes(fmt: FatType, n: nat): nat {
    match fmt
    case Fat12 => (n * 3 + 1) / 2 + 3
    case Fat16 => n * 2 + 4
    case Fat32 => n * 4 + 8
  }

  /** The FAT has as many sectors as are needed, and no more. */
  lemma FatForIs(fmt: FatType, n: nat)
    requires fmt == Fat32 ==> n * 4 + 519 < DWORD_SIZE
    ensures FatBytes(fmt, n) <= FatFor(fmt, n) * SS < FatBytes(fmt, n) + SS
    ensures EntryEnd(fmt, n + 1) <= FatBytes(fmt, n) <= EntryEnd(fmt, n + 1) + 1
  {
  }
}
