/**
 Long file names: cutting a name into directory entries of 13 characters each,
 picking it back, comparing it, and the checksum that ties it to its short name.
 */
module Lfn {
  import opened Bits

  type Wchar = x: int | 0 <= x < 0x1_0000
  type DirEntry = e: seq<Byte> | |e| == 32 witness seq<Byte>(32, i => 0)

  const MAX_LFN: nat := 255
  const AM_LFN: Byte := 0x0F
  const LLEF: nat := 0x40

  /** `LfnOfs[s]` */
  function LfnOfs(s: nat): (r: nat)
    requires s < 13
    ensures 1 <= r <= 30
  {
    if s < 5 then 1 + 2 * s else if s < 11 then 4 + 2 * s else 6 + 2 * s
  }

  lemma LfnOfsApart(s: nat, t: nat)
    requires s < 13 && t < 13 && s != t
    ensures LfnOfs(s) + 1 < LfnOfs(t) || LfnOfs(t) + 1 < LfnOfs(s)
  {
  }

  /** Character `s` of the fragment in entry `e`. */
  function LfnChar(e: DirEntry, s: nat): (r: Wchar)
    requires s < 13
  {
    var lo: int, hi: int := e[LfnOfs(s)], e[LfnOfs(s) + 1];
    lo + 0x100 * hi
  }

  predicate IsLast(e: DirEntry) {
    e[0] as nat / LLEF % 2 == 1
  }

  /** The order of the fragment: `dir[LDIR_Ord] & ~LLEF` */
  function Order(e: DirEntry): nat {
    if IsLast(e) then e[0] - 0x40 else e[0]
  }

  /** The buffer holds a name of `n` characters, then 0. What follows is left from before. */
  ghost predicate Holds(buf: seq<Wchar>, n: nat) {
    && |buf| == MAX_LFN + 1 && n <= MAX_LFN
    && buf[n] == 0
    && forall i :: 0 <= i < n ==> buf[i] != 0
  }

  /** The number of fragments of a name of `n` characters. */
  function Fragments(n: nat): nat {
    (n + 12) / 13
  }

  /** What the fragments hold at position `i` of a name: the name, a 0, fillers. */
  function Padded(buf: seq<Wchar>, n: nat, i: nat): Wchar {
    if i < n && i < |buf| then buf[i] else if i == n then 0 else 0xFFFF
  }

  /** Entry `e` is fragment `ord` of the name of `n` characters in `buf`, for the checksum `sum`. */
  ghost predicate IsFragment(e: DirEntry, buf: seq<Wchar>, n: nat, ord: nat, sum: Byte) {
    && e[11] == AM_LFN && e[12] == 0 && e[13] == sum && e[26] == 0 && e[27] == 0
    && 1 <= ord < 0x40 && e[0] as nat == (if 13 * ord >= n then ord + LLEF else ord)
    && forall s :: 0 <= s < 13 ==> LfnChar(e, s) == Padded(buf, n, 13 * (ord - 1) + s)
  }

  // ---- fit_lfn ----

  /** Entry `e` with the word `v` stored at offset `o`. */
  function PutWord(e: DirEntry, o: nat, v: Wchar): (r: DirEntry)
    requires o + 1 < 32
  {
    e[o := v % 0x100][o + 1 := v / 0x100]
  }

  function PutByte(e: DirEntry, o: nat, v: Byte): (r: DirEntry)
    requires o < 32
  {
    e[o := v]
  }

  /** Stores a byte into the entry at `d` of the window. */
  method StoreByte(win: array<Byte>, d: nat, o: nat, v: Byte)
    requires d + 32 <= win.Length && o < 32
    modifies win
    ensures win[d..d + 32] == PutByte(old(win[d..d + 32]), o, v)
    ensures win[..d] == old(win[..d]) && win[d + 32..] == old(win[d + 32..])
  {
    win[d + o] := v;
  }

  /** `ST_WORD` into the entry at `d` of the window. */
  method StoreWord(win: array<Byte>, d: nat, o: nat, v: Wchar)
    requires d + 32 <= win.Length && o + 1 < 32
    modifies win
    ensures win[d..d + 32] == PutWord(old(win[d..d + 32]), o, v)
    ensures win[..d] == old(win[..d]) && win[d + 32..] == old(win[d + 32..])
  {
    win[d + o] := v % 0x100;
    win[d + o + 1] := v / 0x100;
  }

  /** The fixed fields and the first `s` characters are stored. */
  ghost predicate Fitted(e: DirEntry, buf: seq<Wchar>, n: nat, ord: nat, sum: Byte, s: nat) {
    && 1 <= ord && e[11] == AM_LFN && e[12] == 0 && e[13] == sum && e[26] == 0 && e[27] == 0
    && forall t :: 0 <= t < s <= 13 ==> LfnChar(e, t) == Padded(buf, n, 13 * (ord - 1) + t)
  }

  lemma FittedNone(e: DirEntry, buf: seq<Wchar>, n: nat, ord: nat, sum: Byte)
    requires 1 <= ord
    ensures Fitted(PutWord(PutByte(PutByte(PutByte(e, 13, sum), 11, AM_LFN), 12, 0), 26, 0), buf, n, ord, sum, 0)
  {
  }

  lemma WordStored(e: DirEntry, s: nat, wc: Wchar)
    requires s < 13
    ensures var f := PutWord(e, LfnOfs(s), wc);
      && LfnChar(f, s) == wc && (forall t :: 0 <= t < 13 && t != s ==> LfnChar(f, t) == LfnChar(e, t))
      && f[11] == e[11] && f[12] == e[12] && f[13] == e[13] && f[26] == e[26] && f[27] == e[27]
  {
    forall t | 0 <= t < 13 && t != s
      ensures LfnChar(PutWord(e, LfnOfs(s), wc), t) == LfnChar(e, t)
    {
      LfnOfsApart(s, t);
    }
  }

  lemma FittedNext(e: DirEntry, buf: seq<Wchar>, n: nat, ord: nat, sum: Byte, s: nat, wc: Wchar)
    requires Fitted(e, buf, n, ord, sum, s) && s < 13 && wc == Padded(buf, n, 13 * (ord - 1) + s)
    ensures Fitted(PutWord(e, LfnOfs(s), wc), buf, n, ord, sum, s + 1)
  {
    WordStored(e, s, wc);
    hide LfnChar, PutWord, Padded;
  }

  lemma FittedAll(e: DirEntry, buf: seq<Wchar>, n: nat, ord: nat, sum: Byte, v: Byte)
    requires Fitted(e, buf, n, ord, sum, 13) && ord < LLEF && v as nat == if 13 * ord >= n then ord + LLEF else ord
    ensures IsFragment(PutByte(e, 0, v), buf, n, ord, sum)
  {
    hide Padded;
    forall t | 0 <= t < 13
      ensures LfnChar(PutByte(e, 0, v), t) == LfnChar(e, t)
    {
    }
  }

  /** `fit_lfn`: stores fragment `ord` of the name in `lfn` into the entry at `d` of the window. */
  method FitLfn(lfn: seq<Wchar>, ghost n: nat, win: array<Byte>, d: nat, ord: nat, sum: Byte)
    requires Holds(lfn, n) && d + 32 <= win.Length
    requires forall i :: 0 <= i < n ==> lfn[i] != 0xFFFF
    requires 1 <= ord < LLEF && 13 * (ord - 1) < n
    modifies win
    ensures win[d..d + 32] == LongEntry(FirstByte(n, ord), NameChars(lfn, n, ord), sum)
    ensures IsFragment(win[d..d + 32], lfn, n, ord, sum)
    ensures win[..d] == old(win[..d]) && win[d + 32..] == old(win[d + 32..])
  {
    FittedNone(win[d..d + 32], lfn, n, ord, sum);
    hide PutByte, PutWord, Fitted, IsFragment, LongEntry, NameChars;
    StoreByte(win, d, 13, sum);
    StoreByte(win, d, 11, AM_LFN);
    StoreByte(win, d, 12, 0);
    StoreWord(win, d, 26, 0);
    var i := (ord - 1) * 13;
    var s: nat := 0;
    var wc: Wchar := 0;
    while s < 13
      invariant s <= 13 && Fitted(win[d..d + 32], lfn, n, ord, sum, s)
      invariant win[..d] == old(win[..d]) && win[d + 32..] == old(win[d + 32..])
      invariant if wc == 0xFFFF then n < 13 * (ord - 1) + s else i == 13 * (ord - 1) + s <= n
    {
      if wc != 0xFFFF {
        wc := lfn[i];
        i := i + 1;
      }
      FittedNext(win[d..d + 32], lfn, n, ord, sum, s, wc);
      StoreWord(win, d, LfnOfs(s), wc);
      if wc == 0 {
        wc := 0xFFFF;
      }
      s := s + 1;
    }
    var o := if wc == 0xFFFF || lfn[i] == 0 then ord + LLEF else ord;
    FittedAll(win[d..d + 32], lfn, n, ord, sum, o);
    StoreByte(win, d, 0, o);
    FragmentBytes(win[d..d + 32], lfn, n, ord, sum);
  }

  // ---- cmp_lfn ----

  /** Case folding; only 0 folds to 0. */
  type Upper = Wchar -> Wchar

  ghost predicate UpperOk(up: Upper) {
    forall c: Wchar :: up(c) == 0 <==> c == 0
  }

  /** No 0 among the first `s` characters of the entry. */
  predicate Open(e: DirEntry, s: nat) {
    forall t :: 0 <= t < s && t < 13 ==> LfnChar(e, t) != 0
  }

  /** The entry agrees with the buffer up to its 0, with fillers after it; a full last
      fragment must end the name. */
  ghost predicate Agrees(up: Upper, buf: seq<Wchar>, e: DirEntry)
    requires |buf| == MAX_LFN + 1
  {
    && Order(e) != 0
    && (forall s :: 0 <= s < 13 ==> AgreesAt(up, buf, e, s))
    && (IsLast(e) && Open(e, 13) ==> 13 * Order(e) <= MAX_LFN && buf[13 * Order(e)] == 0)
  }

  ghost predicate AgreesAt(up: Upper, buf: seq<Wchar>, e: DirEntry, s: nat)
    requires |buf| == MAX_LFN + 1 && Order(e) != 0 && s < 13
  {
    if Open(e, s) then
      var i := 13 * (Order(e) - 1) + s;
      i < MAX_LFN && up(LfnChar(e, s)) == up(buf[i])
    else LfnChar(e, s) == 0xFFFF
  }

  /** `cmp_lfn` */
  method CmpLfn(up: Upper, lfnbuf: seq<Wchar>, dir: DirEntry) returns (matched: bool)
    requires UpperOk(up) && |lfnbuf| == MAX_LFN + 1
    ensures matched <==> CharsAgree(up, lfnbuf, dir[0], Chars(dir))
    ensures matched <==> Agrees(up, lfnbuf, dir)
  {
    AgreesIff(up, lfnbuf, dir);
    hide LfnChar, CharsAgree;
    if Order(dir) == 0 {
      return false;       // the offset wraps around
    }
    var i := (Order(dir) - 1) * 13;
    var s: nat := 0;
    var wc: Wchar := 1;
    while s < 13
      invariant s <= 13 && (wc != 0 <==> Open(dir, s))
      invariant wc != 0 ==> i == (Order(dir) - 1) * 13 + s && (s > 0 ==> i <= MAX_LFN)
      invariant forall t :: 0 <= t < s ==> AgreesAt(up, lfnbuf, dir, t)
    {
      var uc := LfnChar(dir, s);
      if wc != 0 {
        wc := up(uc);
        if i >= MAX_LFN || wc != up(lfnbuf[i]) {
          assert !AgreesAt(up, lfnbuf, dir, s);
          return false;
        }
        i := i + 1;
      } else if uc != 0xFFFF {
        assert !AgreesAt(up, lfnbuf, dir, s);
        return false;
      }
      s := s + 1;
    }
    matched := !(IsLast(dir) && wc != 0 && lfnbuf[i] != 0);
  }

  /** All the fragments of a name. */
  ghost predicate AreFragments(es: seq<DirEntry>, buf: seq<Wchar>, n: nat, sum: Byte) {
    |es| == Fragments(n) && forall k :: 0 <= k < |es| ==> IsFragment(es[k], buf, n, k + 1, sum)
  }

  /** The names are equal up to case. */
  ghost predicate SameName(up: Upper, a: seq<Wchar>, n: nat, b: seq<Wchar>, m: nat)
    requires n <= |a| && m <= |b|
  {
    m == n && forall i :: 0 <= i < n ==> up(a[i]) == up(b[i])
  }

  lemma FragmentFacts(e: DirEntry, buf: seq<Wchar>, n: nat, ord: nat, sum: Byte)
    requires IsFragment(e, buf, n, ord, sum)
    ensures Order(e) == ReadOrder(e) == ord >= 1 && (IsLast(e) <==> 13 * ord >= n)
    ensures forall s :: 0 <= s < 13 ==> LfnChar(e, s) == Padded(buf, n, 13 * (ord - 1) + s)
  {
  }

  /** Equal names: each fragment of the one agrees with the other, whatever follows it in the buffer. */
  lemma SameNameAgrees(up: Upper, a: seq<Wchar>, n: nat, b: seq<Wchar>, m: nat, e: DirEntry, ord: nat, sum: Byte)
    requires UpperOk(up) && Holds(a, n) && Holds(b, m) && n <= 254 && SameName(up, a, n, b, m)
    requires IsFragment(e, a, n, ord, sum) && 13 * (ord - 1) < n
    ensures Agrees(up, b, e)
  {
    FragmentFacts(e, a, n, ord, sum);
    hide LfnChar, IsFragment, Order, IsLast;
    forall s | 0 <= s < 13
      ensures AgreesAt(up, b, e, s)
    {
      var i := 13 * (ord - 1) + s;
      if i > n {
        assert LfnChar(e, n - 13 * (ord - 1)) == 0;
      }
    }
    if 13 * ord > n {
      assert LfnChar(e, n - 13 * (ord - 1)) == 0;
      assert !Open(e, 13);
    }
  }

  /** If every fragment agrees, the names are equal. */
  lemma AgreesSameName(up: Upper, a: seq<Wchar>, n: nat, b: seq<Wchar>, m: nat, es: seq<DirEntry>, sum: Byte)
    requires UpperOk(up) && Holds(a, n) && Holds(b, m) && 1 <= n <= 254
    requires AreFragments(es, a, n, sum) && forall k :: 0 <= k < |es| ==> Agrees(up, b, es[k])
    ensures SameName(up, a, n, b, m)
  {
    forall i | 0 <= i < n
      ensures up(a[i]) == up(b[i])
    {
      AgreesPoint(up, a, n, b, es[i / 13], i / 13 + 1, sum, i);
    }
    assert m >= n;
    var l := es[|es| - 1];
    FragmentFacts(l, a, n, |es|, sum);
    hide LfnChar, IsFragment, Order, IsLast;
    if n == 13 * |es| {
      forall s | 0 <= s < 13
        ensures LfnChar(l, s) != 0
      {
      }
      assert Open(l, 13);
    } else {
      AgreesPoint(up, a, n, b, l, |es|, sum, n);
    }
    assert b[n] == 0;
  }

  lemma AgreesPoint(up: Upper, a: seq<Wchar>, n: nat, b: seq<Wchar>, e: DirEntry, ord: nat, sum: Byte, i: nat)
    requires UpperOk(up) && Holds(a, n) && |b| == MAX_LFN + 1 && n <= 254
    requires IsFragment(e, a, n, ord, sum) && Agrees(up, b, e) && 13 * (ord - 1) <= i < 13 * ord && i <= n
    ensures up(a[i]) == up(b[i])
  {
    FragmentFacts(e, a, n, ord, sum);
    hide LfnChar, IsFragment, Order, IsLast;
    var s := i - 13 * (ord - 1);
    forall t | 0 <= t < s
      ensures LfnChar(e, t) != 0
    {
      assert LfnChar(e, t) == Padded(a, n, 13 * (ord - 1) + t);
    }
    assert AgreesAt(up, b, e, s);
  }

  /** `cmp_lfn` accepts all fragments of a name exactly when the names are equal up to case. */
  lemma CmpIff(up: Upper, a: seq<Wchar>, n: nat, b: seq<Wchar>, m: nat, es: seq<DirEntry>, sum: Byte)
    requires UpperOk(up) && Holds(a, n) && Holds(b, m) && 1 <= n <= 254 && AreFragments(es, a, n, sum)
    ensures (forall k :: 0 <= k < |es| ==> Agrees(up, b, es[k])) <==> SameName(up, a, n, b, m)
  {
    if forall k :: 0 <= k < |es| ==> Agrees(up, b, es[k]) {
      AgreesSameName(up, a, n, b, m, es, sum);
    }
    if SameName(up, a, n, b, m) {
      forall k | 0 <= k < |es|
        ensures Agrees(up, b, es[k])
      {
        SameNameAgrees(up, a, n, b, m, es[k], k + 1, sum);
      }
    }
  }

  /** A name of 255 characters is never found: the last fragment does not even agree with itself. */
  lemma LongestNotFound(up: Upper, a: seq<Wchar>, b: seq<Wchar>, m: nat, e: DirEntry, sum: Byte)
    requires UpperOk(up) && Holds(a, 255) && Holds(b, m) && IsFragment(e, a, 255, 20, sum)
    ensures !Agrees(up, b, e)
  {
    FragmentFacts(e, a, 255, 20, sum);
    hide LfnChar, IsFragment, Order, IsLast;
    forall t | 0 <= t < 8
      ensures LfnChar(e, t) != 0
    {
      assert LfnChar(e, t) == Padded(a, 255, 247 + t);
    }
    assert Open(e, 8);
    assert !AgreesAt(up, b, e, 8);
  }

  // ---- the bytes of a fragment ----

  function Le(lo: Byte, hi: Byte): Wchar { lo + 0x100 * hi }

  function Lo(c: Wchar): Byte { c % 0x100 }

  function Hi(c: Wchar): Byte { c / 0x100 }

  /** The 13 characters of a long-name entry, byte by byte. */
  function Chars(e: DirEntry): (r: seq<Wchar>)
    ensures |r| == 13
  {
    [Le(e[1], e[2]), Le(e[3], e[4]), Le(e[5], e[6]), Le(e[7], e[8]), Le(e[9], e[10]),
     Le(e[14], e[15]), Le(e[16], e[17]), Le(e[18], e[19]), Le(e[20], e[21]), Le(e[22], e[23]), Le(e[24], e[25]),
     Le(e[28], e[29]), Le(e[30], e[31])]
  }

  /** A long-name entry: the order, five characters, the attribute, the type, the checksum, six
      characters, no cluster, two characters. */
  function LongEntry(first: Byte, c: seq<Wchar>, sum: Byte): (r: DirEntry)
    requires |c| == 13
  {
    [first, Lo(c[0]), Hi(c[0]), Lo(c[1]), Hi(c[1]), Lo(c[2]), Hi(c[2]), Lo(c[3]), Hi(c[3]), Lo(c[4]), Hi(c[4]),
     0x0F, 0, sum, Lo(c[5]), Hi(c[5]), Lo(c[6]), Hi(c[6]), Lo(c[7]), Hi(c[7]),
     Lo(c[8]), Hi(c[8]), Lo(c[9]), Hi(c[9]), Lo(c[10]), Hi(c[10]), 0, 0, Lo(c[11]), Hi(c[11]), Lo(c[12]), Hi(c[12])]
  }

  /** What fragment `ord` of a name holds: its characters, one 0, 0xFFFF. */
  function NameChars(buf: seq<Wchar>, n: nat, ord: nat): (r: seq<Wchar>)
    requires n <= |buf| && ord >= 1
    ensures |r| == 13
  {
    seq<Wchar>(13, s requires 0 <= s < 13 => Padded(buf, n, 13 * (ord - 1) + s))
  }

  /** The order byte of fragment `ord`. */
  function FirstByte(n: nat, ord: nat): Byte
    requires 1 <= ord < 0x40
  {
    if 13 * ord >= n then ord + 0x40 else ord
  }

  /** The characters that the code reads one after the other are those. */
  lemma CharAt(e: DirEntry, s: nat)
    requires s < 13
    ensures LfnChar(e, s) == Chars(e)[s]
  {
  }

  lemma EntryChars(first: Byte, c: seq<Wchar>, sum: Byte)
    requires |c| == 13
    ensures var e := LongEntry(first, c, sum); Chars(e) == c && e[0] == first && e[13] == sum
  {
    hide Lo, Hi;
    forall s | 0 <= s < 13
      ensures Le(Lo(c[s]), Hi(c[s])) == c[s]
    {
      TwoBytes(c[s]);
    }
    hide Le;
  }

  lemma TwoBytes(c: Wchar)
    ensures Le(Lo(c), Hi(c)) == c
  {
  }

  lemma OfBytes(lo: Byte, hi: Byte)
    ensures Lo(Le(lo, hi)) == lo && Hi(Le(lo, hi)) == hi
  {
  }

  /** An entry is its order, its characters and its checksum. */
  lemma EntryIs(e: DirEntry)
    requires e[11] == 0x0F && e[12] == 0 && e[26] == 0 && e[27] == 0
    ensures e == LongEntry(e[0], Chars(e), e[13])
  {
    forall lo: Byte, hi: Byte
      ensures Lo(Le(lo, hi)) == lo && Hi(Le(lo, hi)) == hi
    {
      OfBytes(lo, hi);
    }
    hide Lo, Hi, Le;
  }

  lemma EntryFixed(first: Byte, c: seq<Wchar>, sum: Byte)
    requires |c| == 13
    ensures var e := LongEntry(first, c, sum);
      e[0] == first && e[11] == 0x0F && e[12] == 0 && e[13] == sum && e[26] == 0 && e[27] == 0
  {
    hide Lo, Hi;
  }

  lemma NameCharAt(buf: seq<Wchar>, n: nat, ord: nat, s: nat)
    requires n < |buf| && ord >= 1 && s < 13
    ensures NameChars(buf, n, ord)[s] == Padded(buf, n, 13 * (ord - 1) + s)
  {
  }

  lemma FragmentIs(e: DirEntry, buf: seq<Wchar>, n: nat, ord: nat, sum: Byte)
    requires 1 <= ord < 0x40
    ensures IsFragment(e, buf, n, ord, sum) <==>
      && e[11] == 0x0F && e[12] == 0 && e[13] == sum && e[26] == 0 && e[27] == 0 && e[0] == FirstByte(n, ord)
      && forall s :: 0 <= s < 13 ==> LfnChar(e, s) == Padded(buf, n, 13 * (ord - 1) + s)
  {
    hide LfnChar, Padded;
  }

  /** A fragment, byte by byte. */
  lemma FragmentBytes(e: DirEntry, buf: seq<Wchar>, n: nat, ord: nat, sum: Byte)
    requires n < |buf| && 1 <= ord < 0x40
    ensures IsFragment(e, buf, n, ord, sum) <==> e == LongEntry(FirstByte(n, ord), NameChars(buf, n, ord), sum)
  {
    hide *;
    var c := NameChars(buf, n, ord);
    var f := LongEntry(FirstByte(n, ord), c, sum);
    EntryChars(FirstByte(n, ord), c, sum);
    EntryFixed(FirstByte(n, ord), c, sum);
    FragmentIs(e, buf, n, ord, sum);
    forall s | 0 <= s < 13
      ensures LfnChar(e, s) == Chars(e)[s] && c[s] == Padded(buf, n, 13 * (ord - 1) + s)
    {
      CharAt(e, s);
      NameCharAt(buf, n, ord, s);
    }
    if IsFragment(e, buf, n, ord, sum) {
      EntryIs(e);
      assert Chars(e) == c;
    }
  }

  /** Of 13 characters those up to the first 0 count, `t` with it; the others are fillers. */
  ghost predicate Ends(c: seq<Wchar>, t: nat)
    requires |c| == 13
  {
    && 0 < t <= 13 && (forall s :: 0 <= s < t - 1 ==> c[s] != 0) && (t < 13 ==> c[t - 1] == 0)
    && forall s :: t <= s < 13 ==> c[s] == 0xFFFF
  }

  predicate LastBit(first: Byte) { first as nat / 0x40 % 2 == 1 }

  /** The `t` characters of the entry with the order byte `first` are those of the name in the buffer from
      their place on, up to case; a last one without a 0 ends where the name ends. */
  ghost predicate AgreeUpTo(up: Upper, buf: seq<Wchar>, first: Byte, c: seq<Wchar>, t: nat)
    requires |buf| == MAX_LFN + 1 && |c| == 13
  {
    var ord: int := if LastBit(first) then first - 0x40 else first;
    && ord >= 1 && Ends(c, t) && 13 * (ord - 1) + t <= 255
    && (forall s :: 0 <= s < t ==> up(c[s]) == up(buf[13 * (ord - 1) + s]))
    && (LastBit(first) && t == 13 && c[12] != 0 ==> buf[13 * ord] == 0)
  }

  ghost predicate CharsAgree(up: Upper, buf: seq<Wchar>, first: Byte, c: seq<Wchar>)
    requires |buf| == MAX_LFN + 1 && |c| == 13
  {
    exists t: nat :: AgreeUpTo(up, buf, first, c, t)
  }

  lemma CharsEnd(e: DirEntry)
    ensures (forall s :: Taken(e, 0) <= s < 13 ==> LfnChar(e, s) == 0xFFFF) ==> Ends(Chars(e), Taken(e, 0))
    ensures forall t: nat :: Ends(Chars(e), t) ==> t == Taken(e, 0)
    ensures forall s :: 0 <= s < 13 ==> LfnChar(e, s) == Chars(e)[s]
    ensures forall s :: 0 <= s <= 13 ==>
      (Open(e, s) <==> s < Taken(e, 0) || (s == 13 == Taken(e, 0) && Chars(e)[12] != 0))
    ensures 0 < Taken(e, 0) <= 13
  {
    var c, t := Chars(e), Taken(e, 0);
    forall s | 0 <= s < 13
      ensures LfnChar(e, s) == c[s]
    {
      CharAt(e, s);
    }
    hide LfnChar, Chars, Taken;
  }

  lemma OrderIs(e: DirEntry)
    ensures Order(e) == (if LastBit(e[0]) then e[0] - 0x40 else e[0]) && (IsLast(e) <==> LastBit(e[0]))
  {
  }

  lemma AgreesAtIs(up: Upper, buf: seq<Wchar>, e: DirEntry, s: nat)
    requires |buf| == MAX_LFN + 1 && Order(e) != 0 && s < 13
    ensures AgreesAt(up, buf, e, s) <==>
      if s < Taken(e, 0) then 13 * (Order(e) - 1) + s < 255 && up(Chars(e)[s]) == up(buf[13 * (Order(e) - 1) + s])
      else Chars(e)[s] == 0xFFFF
  {
    CharsEnd(e);
    hide LfnChar, Chars, Taken, Order, Ends, Open;
  }

  lemma AgreesIff(up: Upper, buf: seq<Wchar>, e: DirEntry)
    requires |buf| == MAX_LFN + 1
    ensures Agrees(up, buf, e) <==> CharsAgree(up, buf, e[0], Chars(e))
  {
    if Agrees(up, buf, e) {
      AgreedFrom(up, buf, e);
    }
    if CharsAgree(up, buf, e[0], Chars(e)) {
      AgreedBy(up, buf, e);
    }
    hide Agrees, AgreeUpTo, Chars;
  }

  lemma AgreedFrom(up: Upper, buf: seq<Wchar>, e: DirEntry)
    requires |buf| == MAX_LFN + 1 && Agrees(up, buf, e)
    ensures AgreeUpTo(up, buf, e[0], Chars(e), Taken(e, 0))
  {
    CharsEnd(e);
    OrderIs(e);
    hide LfnChar, Chars, Taken, Order, IsLast, LastBit, Ends, AgreesAt, Open;
    forall s: nat | s < 13
      ensures if s < Taken(e, 0) then
          13 * (Order(e) - 1) + s < 255 && up(Chars(e)[s]) == up(buf[13 * (Order(e) - 1) + s])
        else Chars(e)[s] == 0xFFFF
    {
      assert AgreesAt(up, buf, e, s);
      AgreesAtIs(up, buf, e, s);
    }
    var t := Taken(e, 0);
    forall s: nat | t <= s < 13
      ensures LfnChar(e, s) == 0xFFFF
    {
      assert LfnChar(e, s) == Chars(e)[s];
    }
    assert Ends(Chars(e), t);
    assert 13 * (Order(e) - 1) + (t - 1) < 255;
    assert t == 13 && Chars(e)[12] != 0 ==> Open(e, 13);
  }

  lemma AgreedBy(up: Upper, buf: seq<Wchar>, e: DirEntry)
    requires |buf| == MAX_LFN + 1 && CharsAgree(up, buf, e[0], Chars(e))
    ensures Agrees(up, buf, e)
  {
    CharsEnd(e);
    OrderIs(e);
    var t: nat :| AgreeUpTo(up, buf, e[0], Chars(e), t);
    hide LfnChar, Chars, Taken, Order, IsLast, LastBit, Ends, AgreesAt, Open;
    forall s: nat | s < 13
      ensures AgreesAt(up, buf, e, s)
    {
      hide *;
      AgreedAt(up, buf, e, t, s);
    }
  }

  lemma AgreedAt(up: Upper, buf: seq<Wchar>, e: DirEntry, t: nat, s: nat)
    requires |buf| == MAX_LFN + 1 && AgreeUpTo(up, buf, e[0], Chars(e), t) && s < 13
    ensures Order(e) != 0 && AgreesAt(up, buf, e, s)
  {
    CharsEnd(e);
    OrderIs(e);
    hide LfnChar, Chars, Taken, Order, IsLast, LastBit, Ends, AgreesAt, Open;
    EndsFill(Chars(e), t);
    AgreesAtIs(up, buf, e, s);
  }

  lemma EndsFill(c: seq<Wchar>, t: nat)
    requires |c| == 13 && Ends(c, t)
    ensures forall s :: t <= s < 13 ==> c[s] == 0xFFFF
  {
  }

  // ---- pick_lfn ----

  /** The order of the fragment for reading: `dir[LDIR_Ord] & 0x3F` */
  function ReadOrder(e: DirEntry): nat {
    e[0] % 0x40
  }

  /** The number of characters of the entry up to its 0, that included. */
  function Taken(e: DirEntry, s: nat): (r: nat)
    requires s <= 13
    ensures s <= r <= 13
    ensures forall t :: s <= t < r - 1 ==> LfnChar(e, t) != 0
    ensures r < 13 ==> r > s && LfnChar(e, r - 1) == 0
    decreases 13 - s
  {
    if s == 13 then s else if LfnChar(e, s) == 0 then s + 1 else Taken(e, s + 1)
  }

  /** The entry is well formed and its characters fit into the buffer. */
  ghost predicate CanPick(e: DirEntry) {
    && ReadOrder(e) != 0
    && 13 * (ReadOrder(e) - 1) + Taken(e, 0) <= (if IsLast(e) then MAX_LFN - 1 else MAX_LFN)
    && forall s :: Taken(e, 0) <= s < 13 ==> LfnChar(e, s) == 0xFFFF
  }

  /** The buffer after the entry was picked. */
  ghost function Picked(buf: seq<Wchar>, e: DirEntry): (r: seq<Wchar>)
    requires |buf| == MAX_LFN + 1 && CanPick(e)
    ensures |r| == |buf|
  {
    seq<Wchar>(|buf|, i requires 0 <= i < |buf| => PickedAt(buf[i], 13 * (ReadOrder(e) - 1), e, i))
  }

  /** The character at position `i` after the entry at position `o` was picked over `c`. */
  function PickedAt(c: Wchar, o: nat, e: DirEntry, i: nat): Wchar {
    if o <= i < o + Taken(e, 0) then LfnChar(e, i - o)
    else if IsLast(e) && i == o + Taken(e, 0) then 0
    else c
  }

  /** The entry fits into the buffer, a last one with a 0 behind it. */
  ghost predicate CharsFit(first: Byte, c: seq<Wchar>, t: nat)
    requires |c| == 13
  {
    first % 0x40 != 0 && Ends(c, t) && 13 * (first % 0x40 - 1) + t <= if LastBit(first) then 254 else 255
  }

  /** The buffer after it: the characters up to the first 0, with a 0 behind those of a last entry. */
  ghost predicate CharsPut(a: seq<Wchar>, b: seq<Wchar>, first: Byte, c: seq<Wchar>, t: nat)
    requires |c| == 13 && t <= 13 && first % 0x40 >= 1
  {
    var o := 13 * (first % 0x40 - 1);
    && |b| == |a|
    && forall i :: 0 <= i < |b| ==>
      b[i] == if o <= i < o + t then c[i - o] else if LastBit(first) && i == o + t then 0 else a[i]
  }

  lemma PickIff(buf: seq<Wchar>, e: DirEntry)
    requires |buf| == MAX_LFN + 1
    ensures CanPick(e) <==> CharsFit(e[0], Chars(e), Taken(e, 0))
    ensures forall t: nat :: CharsFit(e[0], Chars(e), t) ==> t == Taken(e, 0)
    ensures CanPick(e) ==> CharsPut(buf, Picked(buf, e), e[0], Chars(e), Taken(e, 0))
  {
    CharsEnd(e);
    OrderIs(e);
    hide LfnChar, Chars, Taken, IsLast, LastBit, Open, Ends;
    if CharsFit(e[0], Chars(e), Taken(e, 0)) {
      EndsFill(Chars(e), Taken(e, 0));
    }
  }

  /** `pick_lfn`. False: the entry is malformed or the name too long. */
  method PickLfn(lfnbuf: array<Wchar>, dir: DirEntry) returns (ok: bool)
    requires lfnbuf.Length == MAX_LFN + 1
    modifies lfnbuf
    ensures ok <==> exists t: nat :: CharsFit(dir[0], Chars(dir), t)
    ensures ok ==> forall t: nat :: CharsFit(dir[0], Chars(dir), t) ==>
      CharsPut(old(lfnbuf[..]), lfnbuf[..], dir[0], Chars(dir), t)
    ensures ok <==> CanPick(dir)
    ensures ok ==> lfnbuf[..] == Picked(old(lfnbuf[..]), dir)
  {
    PickIff(lfnbuf[..], dir);
    hide LfnChar, Chars, CharsFit, CharsPut, Taken;
    if ReadOrder(dir) == 0 {
      return false;       // the offset wraps around
    }
    var i := (ReadOrder(dir) - 1) * 13;
    ok, i := PickChars(lfnbuf, dir, i);
    if !ok {
      return;
    }
    if IsLast(dir) {
      if i >= MAX_LFN {
        return false;
      }
      lfnbuf[i] := 0;
    }
  }

  /** The loop of `pick_lfn`, from position `o` of the buffer on; `p` is where it ends. */
  method PickChars(lfnbuf: array<Wchar>, dir: DirEntry, o: nat) returns (ok: bool, p: nat)
    requires lfnbuf.Length == MAX_LFN + 1
    modifies lfnbuf
    ensures ok <==> o + Taken(dir, 0) <= MAX_LFN && forall s :: Taken(dir, 0) <= s < 13 ==> LfnChar(dir, s) == 0xFFFF
    ensures ok ==> p == o + Taken(dir, 0)
    ensures ok ==> forall k :: 0 <= k < lfnbuf.Length ==>
      lfnbuf[k] == if o <= k < p then LfnChar(dir, k - o) else old(lfnbuf[k])
  {
    hide LfnChar;
    ghost var c := Taken(dir, 0);
    p := o;
    var s: nat := 0;
    var wc: Wchar := 1;
    while s < 13
      invariant s <= 13 && p == o + (if s < c then s else c) && (s > 0 ==> p <= MAX_LFN)
      invariant wc == 0 <==> s > 0 && s >= c && LfnChar(dir, c - 1) == 0
      invariant s <= c || wc == 0
      invariant forall t :: c <= t < s ==> LfnChar(dir, t) == 0xFFFF
      invariant forall k :: 0 <= k < lfnbuf.Length ==>
        lfnbuf[k] == if o <= k < p then LfnChar(dir, k - o) else old(lfnbuf[k])
    {
      var uc := LfnChar(dir, s);
      if wc != 0 {
        if p >= MAX_LFN {
          return false, p;
        }
        wc := uc;
        lfnbuf[p] := uc;
        p := p + 1;
      } else if uc != 0xFFFF {
        return false, p;
      }
      s := s + 1;
    }
    ok := true;
  }

  /** A fragment of a name of at most 253 characters can be picked. */
  lemma FragmentFits(a: seq<Wchar>, n: nat, e: DirEntry, ord: nat, sum: Byte)
    requires Holds(a, n) && IsFragment(e, a, n, ord, sum) && 13 * (ord - 1) < n
    ensures ReadOrder(e) == ord
    ensures Taken(e, 0) == if 13 * ord > n then n - 13 * (ord - 1) + 1 else 13
    ensures n <= 253 || 13 * ord < n ==> CanPick(e)
    ensures n > 253 && 13 * ord >= n ==> !CanPick(e)
  {
    FragmentFacts(e, a, n, ord, sum);
    hide LfnChar, IsFragment, Order;
    var c, z := Taken(e, 0), n - 13 * (ord - 1);
    forall t | 0 <= t < 13
      ensures LfnChar(e, t) == 0 <==> t == z
    {
      assert LfnChar(e, t) == Padded(a, n, 13 * (ord - 1) + t);
    }
    assert c == if z < 13 then z + 1 else 13;
    forall s | c <= s < 13
      ensures LfnChar(e, s) == 0xFFFF
    {
      assert LfnChar(e, s) == Padded(a, n, 13 * (ord - 1) + s);
    }
  }

  /** Picking the entries from the last one down to the first. */
  ghost function PickedAll(buf: seq<Wchar>, es: seq<DirEntry>, k: nat): (r: seq<Wchar>)
    requires |buf| == MAX_LFN + 1 && k <= |es| && forall i :: 0 <= i < k ==> CanPick(es[i])
    ensures |r| == |buf|
    decreases k
  {
    if k == 0 then buf else PickedAll(Picked(buf, es[k - 1]), es, k - 1)
  }

  /** Characters from position `p` on, and the end, are in the buffer. */
  ghost predicate HoldsFrom(buf: seq<Wchar>, a: seq<Wchar>, n: nat, p: nat) {
    && |buf| == MAX_LFN + 1 && |a| == MAX_LFN + 1 && n <= MAX_LFN && buf[n] == 0
    && forall i :: p <= i < n ==> buf[i] == a[i]
  }

  /** One character after picking fragment `ord`. */
  lemma PickOneAt(buf: seq<Wchar>, a: seq<Wchar>, n: nat, e: DirEntry, ord: nat, sum: Byte, i: nat)
    requires Holds(a, n) && n <= 253 && IsFragment(e, a, n, ord, sum) && 13 * (ord - 1) < n
    requires |buf| == MAX_LFN + 1 && CanPick(e) && 13 * (ord - 1) <= i <= n
    ensures Picked(buf, e)[i] == if i < 13 * ord || i == n == 13 * ord then a[i] else buf[i]
  {
    FragmentFits(a, n, e, ord, sum);
    FragmentFacts(e, a, n, ord, sum);
    hide CanPick, LfnChar, IsFragment, IsLast, ReadOrder, Taken, Order;
    var s := i - 13 * (ord - 1);
    if s < 13 {
      assert LfnChar(e, s) == Padded(a, n, i);
    }
  }

  lemma PickOne(buf: seq<Wchar>, a: seq<Wchar>, n: nat, e: DirEntry, ord: nat, sum: Byte)
    requires Holds(a, n) && n <= 253 && IsFragment(e, a, n, ord, sum) && 13 * (ord - 1) < n
    requires |buf| == MAX_LFN + 1 && (13 * ord < n ==> HoldsFrom(buf, a, n, 13 * ord))
    ensures CanPick(e) && HoldsFrom(Picked(buf, e), a, n, 13 * (ord - 1))
  {
    FragmentFits(a, n, e, ord, sum);
    hide CanPick, IsFragment, Picked;
    forall i | 13 * (ord - 1) <= i <= n
      ensures Picked(buf, e)[i] == a[i]
    {
      PickOneAt(buf, a, n, e, ord, sum, i);
    }
  }

  lemma {:induction false} PickRest(buf: seq<Wchar>, a: seq<Wchar>, n: nat, es: seq<DirEntry>, sum: Byte, k: nat)
    requires Holds(a, n) && 1 <= n <= 253 && AreFragments(es, a, n, sum) && k <= |es|
    requires |buf| == MAX_LFN + 1 && (13 * k < n ==> HoldsFrom(buf, a, n, 13 * k))
    requires (k == 0 ==> HoldsFrom(buf, a, n, 0))
    ensures forall i :: 0 <= i < k ==> CanPick(es[i])
    ensures HoldsFrom(PickedAll(buf, es, k), a, n, 0)
    decreases k
  {
    hide CanPick, Picked, IsFragment;
    if k > 0 {
      PickOne(buf, a, n, es[k - 1], k, sum);
      PickRest(Picked(buf, es[k - 1]), a, n, es, sum, k - 1);
    }
  }

  /** A name of at most 253 characters, cut into fragments and picked back, is the same name. */
  lemma PickRoundTrip(buf: seq<Wchar>, a: seq<Wchar>, n: nat, es: seq<DirEntry>, sum: Byte)
    requires Holds(a, n) && 1 <= n <= 253 && AreFragments(es, a, n, sum) && |buf| == MAX_LFN + 1
    ensures forall i :: 0 <= i < |es| ==> CanPick(es[i])
    ensures var r := PickedAll(buf, es, |es|); Holds(r, n) && r[..n] == a[..n]
  {
    hide CanPick, Picked, IsFragment, PickedAll;
    PickRest(buf, a, n, es, sum, |es|);
  }

  /** A longer name cannot be picked back: its last fragment is refused. */
  lemma LongNamesRefused(a: seq<Wchar>, n: nat, es: seq<DirEntry>, sum: Byte)
    requires Holds(a, n) && 254 <= n <= 255 && AreFragments(es, a, n, sum)
    ensures !CanPick(es[|es| - 1])
  {
    FragmentFits(a, n, es[|es| - 1], |es|, sum);
  }

  // ---- sum_sfn ----

  /** One step of the checksum: rotate right, then add. */
  function SumStep(sum: Byte, c: Byte): Byte {
    (sum / 2 + sum * 0x80 + c) % 0x100
  }

  function SumOf(name: seq<Byte>): Byte {
    if name == [] then 0 else SumStep(SumOf(name[..|name| - 1]), name[|name| - 1])
  }

  /** Each byte is added to the sum so far, rotated to the right by one bit. */
  lemma SumPrefix(name: seq<Byte>, k: nat)
    requires k < |name|
    ensures SumOf([]) == 0
    ensures var s := SumOf(name[..k]); SumOf(name[..k + 1]) == (s / 2 + 0x80 * (s % 2) + name[k]) % 0x100
  {
    assert name[..k + 1][..k] == name[..k];
    StepIsRotation(SumOf(name[..k]), name[k]);
  }

  /** `sum_sfn` */
  method SumSfn(dir: seq<Byte>) returns (sum: Byte)
    requires |dir| >= 11
    ensures sum == SumOf(dir[..11])
  {
    sum := 0;
    var n := 0;
    while n < 11
      invariant n <= 11 && sum == SumOf(dir[..n])
    {
      assert dir[..n + 1][..n] == dir[..n];
      sum := SumStep(sum, dir[n]);
      n := n + 1;
    }
  }

  /** A step loses nothing of the sum so far. */
  lemma SumStepInjective(a: Byte, b: Byte, c: Byte)
    requires SumStep(a, c) == SumStep(b, c)
    ensures a == b
  {
    StepIsRotation(a, c);
    StepIsRotation(b, c);
    hide *;
    AddCancels(Rotated(a), Rotated(b), c);
    RotationInjective(a, b);
  }

  lemma AddCancels(x: Byte, y: Byte, c: Byte)
    requires (x + c) % 0x100 == (y + c) % 0x100
    ensures x == y
  {
  }

  function Rotated(a: Byte): (r: Byte) {
    a / 2 + 0x80 * (a % 2)
  }

  lemma StepIsRotation(a: Byte, c: Byte)
    ensures SumStep(a, c) == (Rotated(a) + c) % 0x100
  {
    var q, r := a / 2, a % 2;
    assert a == 2 * q + r;
    Laps(q, Rotated(a) + c);
  }

  lemma Laps(q: nat, x: nat)
    ensures (0x100 * q + x) % 0x100 == x % 0x100
  {
  }

  lemma RotationInjective(a: Byte, b: Byte)
    requires Rotated(a) == Rotated(b)
    ensures a == b
  {
  }

  lemma SumStepByte(a: Byte, c: Byte, d: Byte)
    requires SumStep(a, c) == SumStep(a, d)
    ensures c == d
  {
  }

  /** Two names that differ in exactly one place have different checksums. */
  lemma {:induction false} OneByteChangesSum(x: seq<Byte>, y: seq<Byte>, k: nat)
    requires |x| == |y| && k < |x| && x[k] != y[k]
    requires forall i :: 0 <= i < |x| && i != k ==> x[i] == y[i]
    ensures SumOf(x) != SumOf(y)
  {
    var l := |x| - 1;
    if k == l {
      assert x[..l] == y[..l];
      if SumOf(x) == SumOf(y) {
        SumStepByte(SumOf(x[..l]), x[l], y[l]);
      }
    } else {
      OneByteChangesSum(x[..l], y[..l], k);
      if SumOf(x) == SumOf(y) {
        SumStepInjective(SumOf(x[..l]), SumOf(y[..l]), x[l]);
      }
    }
  }
}
