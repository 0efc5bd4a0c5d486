/**
 Numbered short names: `gen_numname` puts `~` and a hexadecimal number at the end of the
 body of a short name.
 */
module NumName {
  import opened Bits
  import opened Lfn

  const TILDE: Byte := 126
  const SPACE: Byte := 32

  lemma TildeIs()
    ensures TILDE == 126
  {
  }

  /** The digit of value `d`. */
  function Digit(d: nat): Byte
    requires d < 16
  {
    if d < 10 then 48 + d else 55 + d
  }

  /** The hexadecimal digits of `n`, at least one. */
  function Hex(n: nat): (r: seq<Byte>)
    ensures |r| >= 1
    ensures forall i :: 0 <= i < |r| ==> r[i] != TILDE && r[i] != SPACE
  {
    if n < 16 then [Digit(n)] else Hex(n / 16) + [Digit(n % 16)]
  }

  /** How many characters of the body stay before the number, from the `j`-th on. */
  function Kept(src: seq<Byte>, most: nat, j: nat): (r: nat)
    requires j <= most < |src|
    ensures j <= r <= most
    ensures forall i :: j <= i < r ==> src[i] != SPACE
    ensures r < most ==> src[r] == SPACE
    decreases most - j
  {
    if j < most && src[j] != SPACE then Kept(src, most, j + 1) else j
  }

  /** The short name `src` with the number `n`. */
  function Numbered(src: seq<Byte>, n: nat): (r: seq<Byte>)
    requires |src| == 11 && |Hex(n)| <= 7
    ensures |r| == 11
  {
    var h := Hex(n);
    var j := Kept(src, 7 - |h|, 0);
    src[..j] + [TILDE] + h + seq<Byte>(7 - j - |h|, i => SPACE) + src[8..]
  }

  /** One bit of the hash. */
  function HashBit(sr: nat, bit: nat): nat
    requires sr < 0x1_0000 && bit < 2
  {
    var s := 2 * sr + bit;
    if s >= 0x1_0000 then Xor(s, 0x1_1021) else s
  }

  /** The bitwise `a ^ b`. */
  function Xor(a: nat, b: nat): nat
    decreases a + b
  {
    if a == 0 && b == 0 then 0
    else 2 * Xor(a / 2, b / 2) + (if a % 2 != b % 2 then 1 else 0)
  }

  /** Two numbers with the same top bit: the bit goes. */
  lemma {:induction false} XorBelow(a: nat, b: nat, k: nat)
    requires Pow2(k) <= a < 2 * Pow2(k) && Pow2(k) <= b < 2 * Pow2(k)
    ensures Xor(a, b) < Pow2(k)
  {
    if k > 0 {
      XorBelow(a / 2, b / 2, k - 1);
    } else {
      assert a == 1 && b == 1 && Xor(0, 0) == 0;
    }
  }

  lemma WordBound(a: nat, b: nat)
    requires 0x1_0000 <= a < 0x2_0000 && 0x1_0000 <= b < 0x2_0000
    ensures Xor(a, b) < 0x1_0000
  {
    assert Pow2(8) == 256;
    Pow2Sum(8, 8);
    assert Pow2(16) == 0x1_0000;
    hide Xor, Pow2;
    XorBelow(a, b, 16);
  }

  lemma HashBound(sr: nat, bit: nat)
    requires sr < 0x1_0000 && bit < 2
    ensures HashBit(sr, bit) < 0x1_0000
  {
    hide Xor;
    if 2 * sr + bit >= 0x1_0000 {
      WordBound(2 * sr + bit, 0x1_1021);
    }
  }

  lemma {:induction false} HexLength(n: nat, k: nat)
    requires k >= 1 && n < Pow2(4 * k)
    ensures |Hex(n)| <= k
  {
    if n >= 16 {
      assert k > 1 by {
        assert Pow2(4) == 16;
      }
      Pow2Sum(4, 4 * k - 4);
      assert Pow2(4) == 16;
      hide Pow2, Hex;
      HexLength(n / 16, k - 1);
      HexStep(n);
    }
  }

  lemma HexStep(n: nat)
    requires n >= 16
    ensures Hex(n) == Hex(n / 16) + [Digit(n % 16)]
  {
  }

  /** The `n` low bits of a character go through the hash, the lowest first. */
  function HashBits(sr: nat, wc: nat, n: nat): (r: nat)
    requires sr < 0x1_0000
    ensures r < 0x1_0000
    decreases n
  {
    HashBound(sr, wc % 2);
    if n == 0 then sr else HashBits(HashBit(sr, wc % 2), wc / 2, n - 1)
  }

  /** The long name from character `k` on goes through the hash. */
  function HashOf(sr: nat, lfn: seq<Wchar>, k: nat): (r: nat)
    requires sr < 0x1_0000 && k <= |lfn| && 0 in lfn[k..]
    ensures r < 0x1_0000
    decreases |lfn| - k
  {
    if lfn[k] == 0 then sr else HashOf(HashBits(sr, lfn[k], 16), lfn, k + 1)
  }

  /** The number in the `seqno`-th name that is tried. */
  function NumberOf(seqno: nat, lfn: seq<Wchar>): (r: nat)
    requires seqno < 0x1_0000 && 0 in lfn
    ensures r < 0x1_0000 && (seqno <= 5 ==> r == seqno)
  {
    assert lfn[0..] == lfn;
    if seqno > 5 then HashOf(seqno, lfn, 0) else seqno
  }

  /** The hash that takes the place of the number after five collisions. */
  method Hash(seqno: nat, lfn: seq<Wchar>) returns (sr: nat)
    requires 5 < seqno < 0x1_0000 && 0 in lfn
    ensures sr == NumberOf(seqno, lfn)
  {
    assert lfn[0..] == lfn;
    sr := seqno;
    var k: nat := 0;
    while lfn[k] != 0
      invariant k < |lfn| && sr < 0x1_0000 && 0 in lfn[k..]
      invariant HashOf(sr, lfn, k) == HashOf(seqno, lfn, 0)
      decreases |lfn| - k
    {
      ghost var was := sr;
      var wc: nat := lfn[k];
      var i: nat := 0;
      while i < 16
        invariant i <= 16 && sr < 0x1_0000 && HashBits(sr, wc, 16 - i) == HashBits(was, lfn[k], 16)
      {
        HashBound(sr, wc % 2);
        sr := HashBit(sr, wc % 2);
        wc := wc / 2;
        i := i + 1;
      }
      k := k + 1;
    }
  }

  lemma {:induction false} XorInjective(a: nat, b: nat, c: nat)
    requires Xor(a, c) == Xor(b, c)
    ensures a == b
    decreases a + b + c
  {
    if a == 0 && b == 0 {
    } else {
      XorStep(a, c);
      XorStep(b, c);
      XorInjective(a / 2, b / 2, c / 2);
    }
  }

  lemma XorStep(a: nat, c: nat)
    ensures Xor(a, c) % 2 == (if a % 2 != c % 2 then 1 else 0) && Xor(a, c) / 2 == Xor(a / 2, c / 2)
  {
  }

  /** One step of the hash loses nothing. */
  lemma HashBitInjective(a: nat, b: nat, bit: nat)
    requires a < 0x1_0000 && b < 0x1_0000 && bit < 2 && HashBit(a, bit) == HashBit(b, bit)
    ensures a == b
  {
    var x, y := 2 * a + bit, 2 * b + bit;
    XorStep(x, 0x1_1021);
    XorStep(y, 0x1_1021);
    hide Xor;
    if x >= 0x1_0000 && y >= 0x1_0000 {
      XorInjective(x, y, 0x1_1021);
    }
  }

  lemma {:induction false} HashBitsInjective(a: nat, b: nat, wc: nat, n: nat)
    requires a < 0x1_0000 && b < 0x1_0000 && HashBits(a, wc, n) == HashBits(b, wc, n)
    ensures a == b
    decreases n
  {
    hide HashBit;
    if n > 0 {
      HashBound(a, wc % 2);
      HashBound(b, wc % 2);
      HashBitsInjective(HashBit(a, wc % 2), HashBit(b, wc % 2), wc / 2, n - 1);
      HashBitInjective(a, b, wc % 2);
    }
  }

  lemma {:induction false} HashInjective(a: nat, b: nat, lfn: seq<Wchar>, k: nat)
    requires a < 0x1_0000 && b < 0x1_0000 && k <= |lfn| && 0 in lfn[k..] && HashOf(a, lfn, k) == HashOf(b, lfn, k)
    ensures a == b
    decreases |lfn| - k
  {
    hide HashBits;
    if lfn[k] != 0 {
      HashInjective(HashBits(a, lfn[k], 16), HashBits(b, lfn[k], 16), lfn, k + 1);
      HashBitsInjective(a, b, lfn[k], 16);
    }
  }

  /** The `seqno`-th name that is tried. */
  function Candidate(src: seq<Byte>, lfn: seq<Wchar>, seqno: nat): (r: seq<Byte>)
    requires |src| == 11 && 0 in lfn && seqno < 0x1_0000
    ensures |r| == 11
  {
    HexOfWord(NumberOf(seqno, lfn));
    Numbered(src, NumberOf(seqno, lfn))
  }

  /** The names tried are all different: the first five, and those with a hash. */
  lemma CandidatesDiffer(src: seq<Byte>, lfn: seq<Wchar>, i: nat, j: nat)
    requires |src| == 11 && 0 in lfn && i < j < 0x1_0000 && (j <= 5 || 5 < i)
    ensures Candidate(src, lfn, i) != Candidate(src, lfn, j)
  {
    hide Numbered, HashOf, Hex;
    var m, n := NumberOf(i, lfn), NumberOf(j, lfn);
    HexOfWord(m);
    HexOfWord(n);
    if Numbered(src, m) == Numbered(src, n) {
      NumberedInjective(src, m, n);
      assert lfn[0..] == lfn;
      if j > 5 {
        HashInjective(i, j, lfn, 0);
      }
    }
  }

  /** `gen_numname`: the number is `seqno` itself up to 5, then a hash. */
  method GenNumName(src: seq<Byte>, lfn: seq<Wchar>, seqno: nat) returns (dst: seq<Byte>)
    requires |src| == 11 && 0 in lfn && seqno < 0x1_0000
    ensures dst == Candidate(src, lfn, seqno)
  {
    hide Numbered, HashOf;
    var n := seqno;
    if seqno > 5 {
      n := Hash(seqno, lfn);
    }
    HexOfWord(n);
    var ns := Itoa(n);
    dst := Append(src, ns, n);
  }

  /** A candidate begins with the first byte of the body or with `~`. */
  lemma CandidateFirst(src: seq<Byte>, lfn: seq<Wchar>, seqno: nat)
    requires |src| == 11 && 0 in lfn && seqno < 0x1_0000
    ensures Candidate(src, lfn, seqno)[0] == src[0] || Candidate(src, lfn, seqno)[0] == TILDE
  {
    hide Numbered, HashOf;
    HexOfWord(NumberOf(seqno, lfn));
    NumberedFirst(src, NumberOf(seqno, lfn));
  }

  lemma HexOfWord(n: nat)
    requires n < 0x1_0000
    ensures |Hex(n)| <= 4
  {
    assert Pow2(8) == 256;
    Pow2Sum(8, 8);
    assert Pow2(16) == 0x1_0000;
    hide Hex, Pow2;
    HexLength(n, 4);
  }

  /** The digits, put into a buffer from the end, with `~` before them. */
  method Itoa(n: nat) returns (ns: seq<Byte>)
    requires |Hex(n)| <= 7
    ensures ns == [TILDE] + Hex(n)
  {
    var rest := n;
    ns := [];
    var going := true;
    while going
      invariant if going then Hex(n) == Hex(rest) + ns else ns == Hex(n)
      decreases going, rest
    {
      ns := [Digit(rest % 16)] + ns;
      going := rest >= 16;
      rest := rest / 16;
    }
    ns := [TILDE] + ns;
  }

  /** Overwrites the end of the body, from its first blank on at the latest where the
      number just fits, and pads with blanks. */
  method Append(src: seq<Byte>, ns: seq<Byte>, ghost num: nat) returns (dst: seq<Byte>)
    requires |src| == 11 && |Hex(num)| <= 7 && ns == [TILDE] + Hex(num)
    ensures dst == Numbered(src, num)
  {
    hide Hex, Filled, Put;
    dst := src;
    var most := 8 - |ns|;
    var j: nat := 0;
    while j < most && dst[j] != SPACE
      invariant j <= most && Kept(src, most, 0) == Kept(src, most, j)
    {
      j := j + 1;
    }
    ghost var j0 := j;
    var i: nat := 0;
    FilledStart(src, ns, j0);
    while j < 8
      invariant j0 <= j <= 8 && i == Put(ns, j0, j) && dst == Filled(src, ns, j0, j)
    {
      FilledNext(src, ns, j0, j);
      if i < |ns| {
        dst := dst[j := ns[i]];
        i := i + 1;
      } else {
        dst := dst[j := SPACE];
      }
      j := j + 1;
    }
    FilledEnd(src, ns, j0);
  }

  /** How many of `ns` are put when position `j` is reached. */
  function Put(ns: seq<Byte>, j0: nat, j: nat): nat {
    if j < j0 then 0 else if j - j0 < |ns| then j - j0 else |ns|
  }

  /** `src` with `ns` and blanks from `j0` up to `j`. */
  function Filled(src: seq<Byte>, ns: seq<Byte>, j0: nat, j: nat): (r: seq<Byte>)
    requires |src| == 11 && j0 <= j <= 8
    ensures |r| == 11
  {
    src[..j0] + ns[..Put(ns, j0, j)] + seq<Byte>(j - j0 - Put(ns, j0, j), k => SPACE) + src[j..]
  }

  lemma FilledStart(src: seq<Byte>, ns: seq<Byte>, j0: nat)
    requires |src| == 11 && j0 <= 8
    ensures Filled(src, ns, j0, j0) == src && Put(ns, j0, j0) == 0
  {
  }

  lemma FilledNext(src: seq<Byte>, ns: seq<Byte>, j0: nat, j: nat)
    requires |src| == 11 && j0 <= j < 8
    ensures var i := Put(ns, j0, j);
      && (i < |ns| ==> Put(ns, j0, j + 1) == i + 1 && Filled(src, ns, j0, j + 1) == Filled(src, ns, j0, j)[j := ns[i]])
      && (i >= |ns| ==> Put(ns, j0, j + 1) == i == |ns|)
      && (i >= |ns| ==> Filled(src, ns, j0, j + 1) == Filled(src, ns, j0, j)[j := SPACE])
  {
  }

  lemma FilledEnd(src: seq<Byte>, ns: seq<Byte>, j0: nat)
    requires |src| == 11 && j0 + |ns| <= 8
    ensures Filled(src, ns, j0, 8) == src[..j0] + ns + seq<Byte>(8 - j0 - |ns|, k => SPACE) + src[8..]
  {
    assert ns[..|ns|] == ns;
  }

  /** Different numbers give different names. */
  lemma NumberedInjective(src: seq<Byte>, m: nat, n: nat)
    requires |src| == 11 && |Hex(m)| <= 7 && |Hex(n)| <= 7 && Numbered(src, m) == Numbered(src, n)
    ensures m == n
  {
    hide Hex, Numbered;
    if |Hex(m)| < |Hex(n)| {
      SameTilde(src, m, n);
    } else if |Hex(n)| < |Hex(m)| {
      SameTilde(src, n, m);
    } else {
      NumberIn(src, m);
      NumberIn(src, n);
      HexInjective(m, n);
    }
  }

  lemma NumberIn(src: seq<Byte>, m: nat)
    requires |src| == 11 && |Hex(m)| <= 7
    ensures var j := Kept(src, 7 - |Hex(m)|, 0);
      Numbered(src, m)[j + 1..j + 1 + |Hex(m)|] == Hex(m)
  {
    hide Hex;
  }

  /** Names with numbers of different lengths differ. */
  lemma SameTilde(src: seq<Byte>, m: nat, n: nat)
    requires |src| == 11 && |Hex(m)| < |Hex(n)| <= 7
    ensures Numbered(src, m) != Numbered(src, n)
  {
    hide Hex;
    var p, q := Hex(m), Hex(n);
    var i, j := Kept(src, 7 - |p|, 0), Kept(src, 7 - |q|, 0);
    var a, b := Numbered(src, m), Numbered(src, n);
    assert a[i] == TILDE;
    assert forall k :: j < k < j + 1 + |q| ==> b[k] == q[k - j - 1];
    if i == j {
      var k := i + |p| + 1;
      assert b[k] == q[|p|];
      assert a[k] == SPACE;
    } else {
      assert j < i <= 7 - |p| && j == 7 - |q|;
      assert b[i] == q[i - j - 1];
    }
  }

  lemma {:induction false} HexInjective(m: nat, n: nat)
    requires Hex(m) == Hex(n)
    ensures m == n
  {
    assert Hex(m)[|Hex(m)| - 1] == Digit(m % 16) && Hex(n)[|Hex(n)| - 1] == Digit(n % 16);
    if m >= 16 && n >= 16 {
      assert Hex(m)[..|Hex(m)| - 1] == Hex(m / 16) && Hex(n)[..|Hex(n)| - 1] == Hex(n / 16);
      HexInjective(m / 16, n / 16);
    }
  }

  /** The first character of a numbered name is one of the original name or `~`. */
  lemma NumberedFirst(src: seq<Byte>, n: nat)
    requires |src| == 11 && |Hex(n)| <= 7
    ensures Numbered(src, n)[0] == src[0] || Numbered(src, n)[0] == TILDE
    ensures Numbered(src, n)[8..] == src[8..]
  {
    hide Hex;
  }

  // ---- names and numbers, by their bytes ----

  /** The value of hexadecimal digits. */
  function Value(h: seq<Byte>): int
  {
    if h == [] then 0 else 16 * Value(h[..|h| - 1]) + DigitValue(h[|h| - 1])
  }

  function DigitValue(c: Byte): int {
    if 48 <= c <= 57 then c - 48 else if 65 <= c <= 70 then c - 55 else -1
  }

  predicate IsHexDigit(c: Byte) { 48 <= c <= 57 || 65 <= c <= 70 }

  /** The digits are upper-case hexadecimal digits with the value of the number, none too many. */
  lemma {:induction false} HexIs(n: nat)
    ensures Value(Hex(n)) == n && (forall i :: 0 <= i < |Hex(n)| ==> IsHexDigit(Hex(n)[i]))
    ensures n > 0 ==> Hex(n)[0] != 48
  {
    if n >= 16 {
      HexIs(n / 16);
      assert Hex(n)[..|Hex(n)| - 1] == Hex(n / 16);
    } else {
      assert Hex(n)[..0] == [];
    }
  }

  /** The numbered name: the body up to its first blank, or as much of it as leaves room, `~`, the digits,
      blanks; the extension stays. */
  lemma NumberedIs(src: seq<Byte>, n: nat)
    requires |src| == 11 && |Hex(n)| <= 7
    ensures exists j: nat :: NumberedAt(src, Hex(n), Numbered(src, n), j)
  {
    hide Hex;
    var j := Kept(src, 7 - |Hex(n)|, 0);
    assert NumberedAt(src, Hex(n), Numbered(src, n), j);
  }

  ghost predicate NumberedAt(src: seq<Byte>, h: seq<Byte>, r: seq<Byte>, j: nat) {
    && |src| == |r| == 11 && j + 1 + |h| <= 8
    && (forall i :: 0 <= i < j ==> src[i] != 0x20 && r[i] == src[i])
    && (src[j] == 0x20 || j + 1 + |h| == 8)
    && r[j] == 0x7E && r[j + 1..j + 1 + |h|] == h
    && (forall i :: j + 1 + |h| <= i < 8 ==> r[i] == 0x20) && r[8..] == src[8..]
  }

  /** The CRC of one bit: shifted in from the right, and reduced by 0x11021 where a bit comes out. */
  lemma HashBitIs(sr: nat, bit: nat)
    requires sr < 0x1_0000 && bit < 2
    ensures sr < 0x8000 ==> HashBit(sr, bit) == 2 * sr + bit
    ensures sr >= 0x8000 ==> HashBit(sr, bit) == Xor(2 * sr + bit, 0x1_1021)
    ensures Xor(2 * sr + bit, 0x1_1021) % 2 == 1 - bit
  {
    XorStep(2 * sr + bit, 0x1_1021);
    hide Xor;
  }
}
