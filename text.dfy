/** The parts of the .NET runtime that PersonIdent leans on, written out:
    String.IndexOf, String.Trim (Char.IsWhiteSpace), Int32/Int64.Parse with
    NumberStyles.Integer, Int64.ToString, C#'s truncating integer division and
    unchecked 32- and 64-bit arithmetic. */
module Text {
  import opened Wrappers

  const MinInt32: int := -0x8000_0000
  const MaxInt32: int := 0x7FFF_FFFF
  const MinInt64: int := -0x8000_0000_0000_0000
  const MaxInt64: int := 0x7FFF_FFFF_FFFF_FFFF

  /** C#'s int and long. */
  type Int32 = x: int | MinInt32 <= x <= MaxInt32
  type Int64 = x: int | MinInt64 <= x <= MaxInt64

  // ---------------------------------------------------------------------
  // Unchecked arithmetic and truncating division
  // ---------------------------------------------------------------------

  /** An unchecked narrowing to 32 bits: the Int32 congruent to x modulo 2^32. */
  function WrapInt32(x: int): (r: Int32)
    ensures (x - r) % 0x1_0000_0000 == 0
    ensures MinInt32 <= x <= MaxInt32 ==> r == x
  {
    var m := (x - MinInt32) % 0x1_0000_0000;
    assert x - (m + MinInt32) == ((x - MinInt32) / 0x1_0000_0000) * 0x1_0000_0000;
    m + MinInt32
  }

  /** An unchecked narrowing to 64 bits: the Int64 congruent to x modulo 2^64. */
  function WrapInt64(x: int): (r: Int64)
    ensures (x - r) % 0x1_0000_0000_0000_0000 == 0
    ensures MinInt64 <= x <= MaxInt64 ==> r == x
  {
    var m := (x - MinInt64) % 0x1_0000_0000_0000_0000;
    assert x - (m + MinInt64) == ((x - MinInt64) / 0x1_0000_0000_0000_0000) * 0x1_0000_0000_0000_0000;
    m + MinInt64
  }

  /** The only Int32 congruent to x modulo 2^32 is the one WrapInt32 picks. */
  lemma WrapUnique(x: int, a: Int32)
    requires (x - a) % 0x1_0000_0000 == 0
    ensures WrapInt32(x) == a
  {
    var r := WrapInt32(x);
    var d := r - a;
    assert d % 0x1_0000_0000 == 0 by {
      assert (x - a) == ((x - a) / 0x1_0000_0000) * 0x1_0000_0000;
      assert (x - r) == ((x - r) / 0x1_0000_0000) * 0x1_0000_0000;
      assert d == ((x - a) / 0x1_0000_0000 - (x - r) / 0x1_0000_0000) * 0x1_0000_0000;
    }
    assert d == (d / 0x1_0000_0000) * 0x1_0000_0000;
  }

  function Pow2(n: nat): (r: nat)
    ensures r >= 1
  {
    if n == 0 then 1 else 2 * Pow2(n - 1)
  }

  lemma {:induction false} Pow2Add(a: nat, b: nat)
    ensures Pow2(a + b) == Pow2(a) * Pow2(b)
  {
    if a > 0 {
      Pow2Add(a - 1, b);
    }
  }

  lemma Pow2Of32()
    ensures Pow2(32) == 0x1_0000_0000
  {
    assert Pow2(8) == 256;
    Pow2Add(8, 8);
    Pow2Add(16, 16);
  }

  /** Exclusive or of two naturals, bit by bit from the lowest. */
  function XorNat(a: nat, b: nat): nat
    decreases a + b
  {
    if a == 0 && b == 0 then 0
    else 2 * XorNat(a / 2, b / 2) + (if a % 2 == b % 2 then 0 else 1)
  }

  /** Xor-ing with the same b twice gives back a. */
  lemma {:induction false} XorNatTwice(a: nat, b: nat)
    ensures XorNat(XorNat(a, b), b) == a
    decreases a + b
  {
    if a != 0 || b != 0 {
      var c := XorNat(a, b);
      XorNatTwice(a / 2, b / 2);
      assert c / 2 == XorNat(a / 2, b / 2) && c % 2 == (if a % 2 == b % 2 then 0 else 1);
    }
  }

  /** Xor of two numbers below 2^n is below 2^n. */
  lemma {:induction false} XorNatBound(a: nat, b: nat, n: nat)
    requires a < Pow2(n) && b < Pow2(n)
    ensures XorNat(a, b) < Pow2(n)
    decreases n
  {
    if n > 0 && (a != 0 || b != 0) {
      XorNatBound(a / 2, b / 2, n - 1);
    }
  }

  /** C#'s '^' on int: the exclusive or of the two's-complement bits. */
  function Xor32(a: Int32, b: Int32): Int32 {
    WrapInt32(XorNat(a % 0x1_0000_0000, b % 0x1_0000_0000))
  }

  /** x lies k multiples of m above y, a remainder modulo m: so y is x's remainder. */
  lemma ModOfMultiple(x: int, y: int, k: int, m: int)
    requires 0 <= y < m && x == y + k * m
    ensures x % m == y && (x - y) % m == 0
    decreases y
  {
    var q := x / m;
    assert x == q * m + x % m;
    if q < k {
      MulMonotone(q + 1, k, m);
    } else if q > k {
      MulMonotone(k + 1, q, m);
    }
    if y != 0 {
      ModOfMultiple(x - y, 0, k, m);
    }
  }

  /** The remainder modulo 2^32 of the Int32 a value below 2^32 wraps to is that value. */
  lemma WrapRemainder(c: int)
    requires 0 <= c < 0x1_0000_0000
    ensures WrapInt32(c) % 0x1_0000_0000 == c
  {
    var m := 0x1_0000_0000;
    var w := WrapInt32(c);
    ModOfMultiple(w, c, -((c - w) / m), m);
  }

  /** Wrapping an Int32's remainder modulo 2^32 gives the Int32 back. */
  lemma RemainderWrap(a: Int32)
    ensures WrapInt32(a % 0x1_0000_0000) == a
  {
    var m := 0x1_0000_0000;
    assert a == (a / m) * m + a % m;
    NegMul(a / m, m);
    ModOfMultiple(a % m - a, 0, -(a / m), m);
    WrapUnique(a % m, a);
  }

  /** Xor-ing an int with the same int twice gives it back. */
  lemma XorTwice(a: Int32, b: Int32)
    ensures Xor32(Xor32(a, b), b) == a
  {
    var m := 0x1_0000_0000;
    var c := XorNat(a % m, b % m);
    Pow2Of32();
    XorNatBound(a % m, b % m, 32);
    WrapRemainder(c);
    XorNatTwice(a % m, b % m);
    RemainderWrap(a);
  }

  /** C#'s integer '/', which truncates toward zero (Dafny's rounds toward minus infinity
      for a negative dividend). */
  function Quot(a: int, d: int): (q: int)
    requires d > 0
    ensures a >= 0 ==> 0 <= q * d <= a < q * d + d
    ensures a < 0 ==> q * d - d < a <= q * d <= 0
  {
    if a >= 0 then
      DivBounds(a, d);
      a / d
    else
      DivBounds(-a, d);
      NegMul((-a) / d, d);
      -((-a) / d)
  }

  /** Euclidean division of a natural number, stated without '%'. */
  lemma DivBounds(a: nat, d: int)
    requires d > 0
    ensures 0 <= (a / d) * d <= a < (a / d) * d + d
  {
    assert a == (a / d) * d + a % d;
  }

  lemma NegMul(x: int, y: int)
    ensures (-x) * y == -(x * y)
  {
  }

  /** Division of a multiple of d is exact, whichever way it rounds. */
  lemma QuotExact(a: int, d: int)
    requires d > 0 && a % d == 0
    ensures Quot(a, d) * d == a && Rem(a, d) == 0
  {
    var k := a / d;
    assert a == k * d;
    if a < 0 {
      var q := (-a) / d;
      DivBounds(-a, d);
      NegMul(k, d);
      MulUnique(q, -k, d);
    }
  }

  /** Two multiples of d closer than d apart are the same multiple. */
  lemma MulUnique(x: int, y: int, d: int)
    requires d > 0
    requires x * d <= y * d < x * d + d
    ensures x == y
  {
    if y > x {
      MulMonotone(x + 1, y, d);
    } else if y < x {
      MulMonotone(y + 1, x, d);
    }
  }

  lemma MulMonotone(x: int, y: int, d: int)
    requires d > 0 && x <= y
    ensures x * d <= y * d
  {
    MulNonNegative(y - x, d);
  }

  lemma MulNonNegative(x: int, y: int)
    requires x >= 0 && y >= 0
    ensures x * y >= 0
  {
  }

  /** C#'s integer '%': the remainder takes the sign of the dividend. */
  function Rem(a: int, d: int): (r: int)
    requires d > 0
    ensures a == Quot(a, d) * d + r
    ensures a >= 0 ==> 0 <= r < d
    ensures a < 0 ==> -d < r <= 0
  {
    a - Quot(a, d) * d
  }

  // ---------------------------------------------------------------------
  // Searching and trimming
  // ---------------------------------------------------------------------

  /** String.IndexOf(c, start): the first index at or after start holding c, or -1. */
  function IndexOf(s: string, c: char, start: nat): (r: int)
    requires start <= |s|
    ensures r == -1 || (start <= r < |s| && s[r] == c)
    ensures forall k :: start <= k < (if r == -1 then |s| else r) ==> s[k] != c
    decreases |s| - start
  {
    if start == |s| then -1
    else if s[start] == c then start
    else IndexOf(s, c, start + 1)
  }

  /** IndexOf finds k when k holds c and nothing between start and k does. */
  lemma IndexOfAt(s: string, c: char, start: nat, k: nat)
    requires start <= k < |s| && s[k] == c
    requires forall m :: start <= m < k ==> s[m] != c
    ensures IndexOf(s, c, start) == k
  {
  }

  /** Char.IsWhiteSpace: the Unicode space, line and paragraph separators together with
      U+0009..U+000D and U+0085. */
  predicate IsWhiteSpace(c: char) {
    if c <= ' ' then '\t' <= c <= '\r' || c == ' '
    else if c < '\U{85}' then false
    else (c == '\U{85}' || c == '\U{A0}' || c == '\U{1680}' || ('\U{2000}' <= c <= '\U{200A}')
      || c == '\U{2028}' || c == '\U{2029}' || c == '\U{202F}' || c == '\U{205F}' || c == '\U{3000}')
  }

  predicate IsNumberWhite(c: char) {
    ('\t' <= c <= '\r') || c == ' '
  }

  /** The white space String.Trim drops, or the narrower set number parsing skips. */
  predicate Blank(c: char, numberStyle: bool) {
    if numberStyle then IsNumberWhite(c) else IsWhiteSpace(c)
  }

  /** A string with no white space at either end, which Trim leaves alone. */
  predicate IsTrimmed(s: string) {
    s == [] || (!IsWhiteSpace(s[0]) && !IsWhiteSpace(s[|s| - 1]))
  }

  /** s holds w from index k on. */
  predicate Holds(s: string, k: nat, w: string) {
    k + |w| <= |s| && forall m :: 0 <= m < |w| ==> s[k + m] == w[m]
  }

  /** A piece of s made of two parts holds each of them. */
  lemma SplitHolds(s: string, k: nat, a: string, b: string)
    requires Holds(s, k, a + b)
    ensures Holds(s, k, a) && Holds(s, k + |a|, b)
  {
    forall m | 0 <= m < |a| ensures s[k + m] == a[m] {
      assert s[k + m] == (a + b)[m];
    }
    forall m | 0 <= m < |b| ensures s[k + |a| + m] == b[m] {
      assert s[k + (|a| + m)] == (a + b)[|a| + m];
    }
  }

  lemma HoldsSlice(s: string, k: nat, w: string)
    requires Holds(s, k, w)
    ensures s[k..k + |w|] == w
  {
    var u := s[k..k + |w|];
    assert forall m :: 0 <= m < |w| ==> u[m] == s[k + m];
  }

  // Substrings are kept as index ranges [lo, hi) of the string they come from:
  // String.Substring(lo, hi - lo).Trim() is the range Bounds(s, lo, hi, false) of s.

  /** The first index in [i, j) that does not hold white space, or j. */
  function SkipLeading(s: string, i: nat, j: nat, numberStyle: bool): (k: nat)
    requires i <= j <= |s|
    ensures i <= k <= j && (k < j ==> !Blank(s[k], numberStyle))
    decreases j - i
  {
    if i < j && Blank(s[i], numberStyle) then SkipLeading(s, i + 1, j, numberStyle) else i
  }

  /** Everything SkipLeading steps over is white space. */
  lemma {:induction false} SkippedLeading(s: string, i: nat, j: nat, numberStyle: bool)
    requires i <= j <= |s|
    ensures forall m :: i <= m < SkipLeading(s, i, j, numberStyle) ==> Blank(s[m], numberStyle)
    decreases j - i
  {
    if i < j && Blank(s[i], numberStyle) {
      SkippedLeading(s, i + 1, j, numberStyle);
    }
  }

  /** The end of the range [i, j) once white space is dropped from its back. */
  function SkipTrailing(s: string, i: nat, j: nat, numberStyle: bool): (k: nat)
    requires i <= j <= |s|
    ensures i <= k <= j && (i < k ==> !Blank(s[k - 1], numberStyle))
  {
    if i < j && Blank(s[j - 1], numberStyle) then SkipTrailing(s, i, j - 1, numberStyle) else j
  }

  /** Everything SkipTrailing drops is white space. */
  lemma {:induction false} SkippedTrailing(s: string, i: nat, j: nat, numberStyle: bool)
    requires i <= j <= |s|
    ensures forall m :: SkipTrailing(s, i, j, numberStyle) <= m < j ==> Blank(s[m], numberStyle)
  {
    if i < j && Blank(s[j - 1], numberStyle) {
      SkippedTrailing(s, i, j - 1, numberStyle);
    }
  }

  /** The range left of [lo, hi) once white space is dropped from both ends. */
  function Bounds(s: string, lo: nat, hi: nat, numberStyle: bool): (r: (nat, nat))
    requires lo <= hi <= |s|
    ensures lo <= r.0 <= r.1 <= hi
    ensures r.0 < r.1 ==> !Blank(s[r.0], numberStyle) && !Blank(s[r.1 - 1], numberStyle)
  {
    var i := SkipLeading(s, lo, hi, numberStyle);
    (i, SkipTrailing(s, i, hi, numberStyle))
  }

  /** Bounds finds the non-blank core [a, b) of a range padded with white space. */
  lemma BoundsAround(s: string, lo: nat, a: nat, b: nat, hi: nat, numberStyle: bool)
    requires lo <= a <= b <= hi <= |s|
    requires forall m :: lo <= m < a ==> Blank(s[m], numberStyle)
    requires forall m :: b <= m < hi ==> Blank(s[m], numberStyle)
    requires a < b ==> !Blank(s[a], numberStyle) && !Blank(s[b - 1], numberStyle)
    ensures a < b ==> Bounds(s, lo, hi, numberStyle) == (a, b)
    ensures a == b ==> Bounds(s, lo, hi, numberStyle) == (hi, hi)
  {
    var i := SkipLeading(s, lo, hi, numberStyle);
    SkippedLeading(s, lo, hi, numberStyle);
    if a == b {
      assert i == hi;
    } else {
      assert i == a;
      SkippedTrailing(s, i, hi, numberStyle);
    }
  }

  /** String.Trim. */
  function Trim(s: string): (r: string)
    ensures IsTrimmed(r) && |r| <= |s|
  {
    var r := Bounds(s, 0, |s|, false);
    s[r.0..r.1]
  }

  /** A range of s and the same characters in t are trimmed alike. */
  lemma {:induction false} SkipLeadingShift(s: string, i: nat, j: nat, t: string, d: int, numberStyle: bool)
    requires i <= j <= |s| && 0 <= i + d && j + d <= |t|
    requires forall m :: i <= m < j ==> s[m] == t[m + d]
    ensures SkipLeading(t, i + d, j + d, numberStyle) == SkipLeading(s, i, j, numberStyle) + d
    decreases j - i
  {
    if i < j {
      assert s[i] == t[i + d];
      SkipLeadingShift(s, i + 1, j, t, d, numberStyle);
    }
  }

  lemma {:induction false} SkipTrailingShift(s: string, i: nat, j: nat, t: string, d: int, numberStyle: bool)
    requires i <= j <= |s| && 0 <= i + d && j + d <= |t|
    requires forall m :: i <= m < j ==> s[m] == t[m + d]
    ensures SkipTrailing(t, i + d, j + d, numberStyle) == SkipTrailing(s, i, j, numberStyle) + d
    decreases j - i
  {
    if i < j {
      assert s[j - 1] == t[j - 1 + d];
      SkipTrailingShift(s, i, j - 1, t, d, numberStyle);
    }
  }

  /** The range Bounds keeps is exactly what String.Trim returns for that substring. */
  lemma TrimOfRange(s: string, lo: nat, hi: nat)
    requires lo <= hi <= |s|
    ensures Trim(s[lo..hi]) == s[Bounds(s, lo, hi, false).0..Bounds(s, lo, hi, false).1]
  {
    TrimOfCopy(s, lo, hi, s[lo..hi]);
  }

  lemma TrimOfCopy(s: string, lo: nat, hi: nat, t: string)
    requires lo <= hi <= |s| && |t| == hi - lo
    requires forall m :: lo <= m < hi ==> s[m] == t[m - lo]
    ensures Trim(t) == s[Bounds(s, lo, hi, false).0..Bounds(s, lo, hi, false).1]
  {
    var d: int := 0 - lo;
    SkipLeadingShift(s, lo, hi, t, d, false);
    var i := SkipLeading(s, lo, hi, false);
    SkipTrailingShift(s, i, hi, t, d, false);
    var j := SkipTrailing(s, i, hi, false);
    assert Bounds(t, 0, |t|, false) == (i - lo, j - lo);
    SliceOfCopy(s, lo, hi, t, i, j);
  }

  lemma SliceOfCopy(s: string, lo: nat, hi: nat, t: string, i: nat, j: nat)
    requires lo <= i <= j <= hi <= |s| && |t| == hi - lo
    requires forall m :: lo <= m < hi ==> s[m] == t[m - lo]
    ensures t[i - lo..j - lo] == s[i..j]
  {
    var u := t[i - lo..j - lo];
    assert forall m :: 0 <= m < j - i ==> u[m] == s[m + i];
  }

  /** A character missing from a range of s is missing from that substring. */
  lemma NotInRange(s: string, i: nat, j: nat, c: char)
    requires i <= j <= |s|
    requires forall m :: i <= m < j ==> s[m] != c
    ensures c !in s[i..j]
  {
    var u := s[i..j];
    assert forall m :: 0 <= m < |u| ==> u[m] == s[i + m];
  }

  /** Trim only removes characters, so a character absent before is absent after. */
  lemma NotInTrim(s: string, c: char)
    requires c !in s
    ensures c !in Trim(s)
  {
    var r := Bounds(s, 0, |s|, false);
    assert forall m :: r.0 <= m < r.1 ==> s[m] != c;
  }

  /** Trim removes exactly the white space around a trimmed text. */
  lemma TrimSurrounded(lead: string, s: string, trail: string)
    requires forall m :: 0 <= m < |lead| ==> IsWhiteSpace(lead[m])
    requires forall m :: 0 <= m < |trail| ==> IsWhiteSpace(trail[m])
    requires IsTrimmed(s)
    ensures Trim(lead + s + trail) == s
  {
    var t := lead + s + trail;
    var a, b := |lead|, |lead| + |s|;
    forall m | 0 <= m < a ensures Blank(t[m], false) {
      assert t[m] == lead[m];
    }
    forall m | b <= m < |t| ensures Blank(t[m], false) {
      assert t[m] == trail[m - b];
    }
    if s != [] {
      assert t[a] == s[0] && t[b - 1] == s[|s| - 1];
    }
    BoundsAround(t, 0, a, b, |t|, false);
    assert t[a..b] == s;
  }

  lemma TrimOfTrimmed(s: string)
    requires IsTrimmed(s)
    ensures Trim(s) == s
  {
    TrimSurrounded([], s, []);
    assert [] + s + [] == s;
  }

  // ---------------------------------------------------------------------
  // Decimal text
  // ---------------------------------------------------------------------

  predicate IsDigit(c: char) {
    '0' <= c <= '9'
  }

  /** Every character in [i, j) is an ASCII digit. */
  predicate DigitsIn(s: string, i: nat, j: nat)
    requires i <= j <= |s|
    decreases j - i
  {
    i == j || (IsDigit(s[j - 1]) && DigitsIn(s, i, j - 1))
  }

  lemma {:induction false} DigitsInAll(s: string, i: nat, j: nat)
    requires i <= j <= |s|
    ensures DigitsIn(s, i, j) <==> forall m :: i <= m < j ==> IsDigit(s[m])
    decreases j - i
  {
    if i < j {
      DigitsInAll(s, i, j - 1);
    }
  }

  predicate AllDigits(s: string) {
    forall m :: 0 <= m < |s| ==> IsDigit(s[m])
  }

  function DigitChar(d: nat): (c: char)
    requires d < 10
    ensures IsDigit(c)
  {
    (d + '0' as int) as char
  }

  /** The value of the digits in [i, j), most significant first. */
  function ValueIn(s: string, i: nat, j: nat): nat
    requires i <= j <= |s| && DigitsIn(s, i, j)
    decreases j - i
  {
    if i == j then 0 else ValueIn(s, i, j - 1) * 10 + (s[j - 1] as int - '0' as int)
  }

  function DigitsValue(s: string): nat
    requires AllDigits(s)
  {
    DigitsInAll(s, 0, |s|);
    ValueIn(s, 0, |s|)
  }

  /** Whether a range is a run of digits, and its value, depend on its characters only. */
  lemma {:induction false} ValueInShift(s: string, i: nat, j: nat, t: string, d: int)
    requires i <= j <= |s| && 0 <= i + d && j + d <= |t|
    requires forall m :: i <= m < j ==> s[m] == t[m + d]
    ensures DigitsIn(t, i + d, j + d) == DigitsIn(s, i, j)
    ensures DigitsIn(s, i, j) ==> ValueIn(t, i + d, j + d) == ValueIn(s, i, j)
    decreases j - i
  {
    if i < j {
      assert t[j - 1 + d] == s[j - 1];
      ValueInShift(s, i, j - 1, t, d);
    }
  }

  /** The decimal digits of n, without leading zeros. */
  function NatToString(n: nat): (s: string)
    ensures |s| >= 1 && AllDigits(s)
    ensures (s[0] == '0') == (n == 0)
    ensures n < 10 ==> |s| == 1
    ensures 10 <= n < 100 ==> |s| == 2
  {
    if n < 10 then [DigitChar(n)] else NatToString(n / 10) + [DigitChar(n % 10)]
  }

  /** Int32.ToString() and Int64.ToString() in the invariant culture. */
  function IntToString(x: int): (s: string)
    ensures |s| >= 1
    ensures x >= 0 ==> s == NatToString(x)
    ensures x < 0 ==> s == "-" + NatToString(-x)
  {
    if x < 0 then "-" + NatToString(-x) else NatToString(x)
  }

  lemma {:induction false} DigitsValueOfNatToString(n: nat)
    ensures DigitsValue(NatToString(n)) == n
  {
    if n >= 10 {
      var s := NatToString(n);
      var p := NatToString(n / 10);
      assert forall m :: 0 <= m < |p| ==> p[m] == s[m + 0];
      DigitsInAll(p, 0, |p|);
      ValueInShift(p, 0, |p|, s, 0);
      DigitsValueOfNatToString(n / 10);
    }
  }

  // ---------------------------------------------------------------------
  // Int32.Parse and Int64.Parse
  // ---------------------------------------------------------------------

  /** Int64.Parse / Int32.Parse with NumberStyles.Integer of the substring [lo, hi), before
      the range check: optional surrounding white space, an optional sign, then at least one
      ASCII digit. */
  function ParseIntegerIn(s: string, lo: nat, hi: nat): Option<int>
    requires lo <= hi <= |s|
  {
    var r := Bounds(s, lo, hi, true);
    if r.0 == r.1 then None
    else if s[r.0] == '-' || s[r.0] == '+' then
      if r.0 + 1 < r.1 && DigitsIn(s, r.0 + 1, r.1) then
        var v := ValueIn(s, r.0 + 1, r.1);
        Some(if s[r.0] == '-' then -(v as int) else v)
      else None
    else if DigitsIn(s, r.0, r.1) then Some(ValueIn(s, r.0, r.1))
    else None
  }

  /** Int32.Parse: fails (FormatException or OverflowException) where the model says None. */
  function ParseInt32In(s: string, lo: nat, hi: nat): Option<Int32>
    requires lo <= hi <= |s|
  {
    match ParseIntegerIn(s, lo, hi)
    case Some(v) => if MinInt32 <= v <= MaxInt32 then Some(v) else None
    case None => None
  }

  /** Int64.Parse, likewise. */
  function ParseInt64In(s: string, lo: nat, hi: nat): Option<Int64>
    requires lo <= hi <= |s|
  {
    match ParseIntegerIn(s, lo, hi)
    case Some(v) => if MinInt64 <= v <= MaxInt64 then Some(v) else None
    case None => None
  }

  /** Bounds of a range depend on its characters only. */
  lemma BoundsShift(s: string, lo: nat, hi: nat, t: string, d: int, numberStyle: bool)
    requires lo <= hi <= |s| && 0 <= lo + d && hi + d <= |t|
    requires forall m :: lo <= m < hi ==> s[m] == t[m + d]
    ensures Bounds(t, lo + d, hi + d, numberStyle).0 == Bounds(s, lo, hi, numberStyle).0 + d
    ensures Bounds(t, lo + d, hi + d, numberStyle).1 == Bounds(s, lo, hi, numberStyle).1 + d
  {
    SkipLeadingShift(s, lo, hi, t, d, numberStyle);
    var i := SkipLeading(s, lo, hi, numberStyle);
    SkipTrailingShift(s, i, hi, t, d, numberStyle);
  }

  /** What a range parses to depends on its characters only. */
  lemma ParseIntegerInShift(s: string, lo: nat, hi: nat, t: string, d: int)
    requires lo <= hi <= |s| && 0 <= lo + d && hi + d <= |t|
    requires forall m :: lo <= m < hi ==> s[m] == t[m + d]
    ensures ParseIntegerIn(t, lo + d, hi + d) == ParseIntegerIn(s, lo, hi)
  {
    BoundsShift(s, lo, hi, t, d, true);
    var r := Bounds(s, lo, hi, true);
    if r.0 < r.1 {
      assert t[r.0 + d] == s[r.0];
      ValueInShift(s, r.0 + 1, r.1, t, d);
      ValueInShift(s, r.0, r.1, t, d);
    }
  }

  /** Parsing a range reads back the value of the digits it holds, after an optional sign. */
  lemma ParseDigitsIn(s: string, k: nat, hi: nat, sign: string, w: string)
    requires sign == "" || sign == "+" || sign == "-"
    requires |w| >= 1 && AllDigits(w) && Holds(s, k, sign + w) && hi == k + |sign| + |w|
    ensures ParseIntegerIn(s, k, hi) ==
      Some(if sign == "-" then -(DigitsValue(w) as int) else DigitsValue(w))
  {
    var a := k + |sign|;
    var b := a + |w|;
    assert forall m :: 0 <= m < |w| ==> w[m] == s[m + a] by {
      forall m | 0 <= m < |w| ensures w[m] == s[m + a] {
        assert (sign + w)[|sign| + m] == w[m];
      }
    }
    DigitsInAll(w, 0, |w|);
    ValueInShift(w, 0, |w|, s, a);
    if sign != "" {
      assert s[k] == (sign + w)[0];
    }
    assert !Blank(s[k], true) && !Blank(s[b - 1], true);
    BoundsAround(s, k, k, b, b, true);
  }

  /** Parsing reads back what formatting wrote. */
  lemma ParseIntegerOfIntToString(s: string, k: nat, hi: nat, x: int)
    requires Holds(s, k, IntToString(x)) && hi == k + |IntToString(x)|
    ensures ParseIntegerIn(s, k, hi) == Some(x)
  {
    var sign := if x < 0 then "-" else "";
    var w := NatToString(if x < 0 then -x else x);
    assert IntToString(x) == sign + w;
    DigitsValueOfNatToString(if x < 0 then -x else x);
    ParseDigitsIn(s, k, hi, sign, w);
  }

  /** Formatted numbers carry no white space. */
  lemma IntToStringNoWhite(x: int)
    ensures forall m :: 0 <= m < |IntToString(x)| ==> !IsWhiteSpace(IntToString(x)[m])
  {
    var s := IntToString(x);
    if x < 0 {
      assert forall m :: 1 <= m < |s| ==> s[m] == NatToString(-x)[m - 1];
    }
  }
}
