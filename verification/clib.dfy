/** The pieces of the C library the assembler leans on, as pure functions:
    NULL-able strings, the ASCII character classes of <ctype.h>, `atol`/`atoi`
    (leading signed decimal), and the conversions C performs when a value is
    stored into a narrower integer or bit-field. Text is a sequence of 8-bit
    characters. */
module CLib {

  /** A pointer that may be NULL. */
  datatype Option<+T> = None | Some(value: T)

  function Pow2(n: nat): (r: int)
    ensures r >= 1
  {
    if n == 0 then 1 else 2 * Pow2(n - 1)
  }

  /** The byte width. */
  lemma Pow2Of8()
    ensures Pow2(8) == 256
  {
    assert Pow2(4) == 16;
  }

  /** The powers the field widths of the machine use. */
  lemma Pow2Values()
    ensures Pow2(1) == 2 && Pow2(5) == 32 && Pow2(6) == 64 && Pow2(7) == 128 && Pow2(8) == 256
    ensures Pow2(15) == 32768 && Pow2(16) == 65536 && Pow2(24) == 0x100_0000 && Pow2(25) == 0x200_0000
    ensures Pow2(31) == 0x8000_0000 && Pow2(32) == 0x1_0000_0000
  {
    assert Pow2(8) == 256;
    assert Pow2(12) == 4096;
    assert Pow2(16) == 65536;
    assert Pow2(20) == 0x10_0000;
    assert Pow2(24) == 0x100_0000;
    assert Pow2(28) == 0x1000_0000;
    assert Pow2(32) == 0x1_0000_0000;
  }

  /** isspace in the "C" locale: ' ', '\t', '\n', '\v', '\f', '\r'. */
  predicate IsSpace(c: char) {
    c == ' ' || 9 <= c as int <= 13
  }

  predicate IsDigit(c: char) {
    '0' <= c <= '9'
  }

  predicate IsAlpha(c: char) {
    ('a' <= c <= 'z') || ('A' <= c <= 'Z')
  }

  predicate IsAlnum(c: char) {
    IsAlpha(c) || IsDigit(c)
  }

  /** isprint: the printable ASCII range, space included. */
  predicate IsPrint(c: char) {
    32 <= c as int <= 126
  }

  predicate AllSpace(s: string) {
    forall i :: 0 <= i < |s| ==> IsSpace(s[i])
  }

  predicate AllDigits(s: string) {
    forall i :: 0 <= i < |s| ==> IsDigit(s[i])
  }

  /** The value of a `char` converted to `long`: `char` is signed, so bytes
      128..255 become negative. */
  function SignedChar(c: char): (r: int)
    ensures -128 <= r < 128
    ensures c as int < 128 ==> r == c as int
  {
    var b := c as int % 256;
    if b < 128 then b else b - 256
  }

  /** The suffix left after skipping leading white space. */
  function SkipSpaces(s: string): (t: string)
    ensures |t| <= |s| && t == s[|s| - |t|..]
    ensures AllSpace(s[..|s| - |t|])
    ensures |t| > 0 ==> !IsSpace(t[0])
  {
    if |s| > 0 && IsSpace(s[0]) then SkipSpaces(s[1..]) else s
  }

  /** Number of leading decimal digits. */
  function LeadingDigits(s: string): (n: nat)
    ensures n <= |s|
    ensures AllDigits(s[..n])
    ensures n < |s| ==> !IsDigit(s[n])
  {
    if |s| > 0 && IsDigit(s[0]) then 1 + LeadingDigits(s[1..]) else 0
  }

  function DigitValue(c: char): nat
    requires IsDigit(c)
  {
    c as int - '0' as int
  }

  /** Value of a string of decimal digits, most significant first. */
  function DecimalValue(d: string): nat
    requires AllDigits(d)
  {
    if |d| == 0 then 0 else DecimalValue(d[..|d| - 1]) * 10 + DigitValue(d[|d| - 1])
  }

  /** atol / atoi: skip white space, an optional sign, then the longest run of
      decimal digits; no digits gives 0. Overflow is not modelled. */
  function Atol(s: string): int {
    var t := SkipSpaces(s);
    if |t| > 0 && (t[0] == '-' || t[0] == '+') then
      var u := t[1..];
      var v: int := DecimalValue(u[..LeadingDigits(u)]);
      if t[0] == '-' then -v else v
    else
      DecimalValue(t[..LeadingDigits(t)])
  }

  function DigitChar(d: nat): (c: char)
    requires d < 10
    ensures IsDigit(c) && DigitValue(c) == d
  {
    ('0' as int + d) as char
  }

  /** The decimal spelling of a natural number, as printf("%d") writes it. */
  function DecimalString(n: nat): (s: string)
    ensures |s| >= 1 && AllDigits(s)
  {
    if n < 10 then [DigitChar(n)] else DecimalString(n / 10) + [DigitChar(n % 10)]
  }

  /** The decimal spelling of an integer, with a '-' when it is negative. */
  function IntString(x: int): (s: string)
    ensures |s| >= 1 && !IsSpace(s[0])
  {
    if x < 0 then "-" + DecimalString(-x) else DecimalString(x)
  }

  lemma {:induction false} DecimalStringValue(n: nat)
    ensures DecimalValue(DecimalString(n)) == n
  {
    if n >= 10 {
      DecimalStringValue(n / 10);
      var s := DecimalString(n);
      assert s[..|s| - 1] == DecimalString(n / 10);
    }
  }

  lemma {:induction false} AllDigitsLeading(s: string)
    requires AllDigits(s)
    ensures LeadingDigits(s) == |s|
  {
    if |s| > 0 {
      AllDigitsLeading(s[1..]);
    }
  }

  /** atol reads back every integer printed in decimal. */
  lemma AtolIntString(x: int)
    ensures Atol(IntString(x)) == x
  {
    var s := IntString(x);
    if x < 0 {
      var d := DecimalString(-x);
      assert s[1..] == d;
      assert SkipSpaces(s) == s;
      AllDigitsLeading(d);
      assert d[..LeadingDigits(d)] == d;
      DecimalStringValue(-x);
    } else {
      var d := DecimalString(x);
      assert SkipSpaces(s) == s;
      AllDigitsLeading(d);
      assert d[..LeadingDigits(d)] == d;
      DecimalStringValue(x);
    }
  }

  /** Euclidean remainder facts used by the bit-field stores. */
  lemma MultipleInOpenRange(k: int, m: int)
    requires m > 0 && -m < k * m < m
    ensures k == 0
  {
  }

  lemma ModOfMultiple(k: int, m: int)
    requires m > 0
    ensures (k * m) % m == 0
  {
    var q, r := (k * m) / m, (k * m) % m;
    assert k * m == q * m + r;
    assert (k - q) * m == r;
    MultipleInOpenRange(k - q, m);
  }

  lemma ModSmall(x: int, m: int)
    requires 0 <= x < m
    ensures x % m == x
  {
    var q := x / m;
    assert x == q * m + x % m;
  }

  lemma UnsignedFacts(x: int, m: int)
    requires m > 0
    ensures 0 <= x % m < m
    ensures (x - x % m) % m == 0
    ensures 0 <= x < m ==> x % m == x
  {
    ModOfMultiple(x / m, m);
    assert x - x % m == (x / m) * m;
    if 0 <= x < m {
      ModSmall(x, m);
    }
  }

  lemma ModShiftDown(a: int, m: int)
    requires m > 0
    ensures (a - m) % m == a % m
  {
    var q := a / m;
    assert a == q * m + a % m;
    assert a - m == (q - 1) * m + a % m;
    var q2 := (a - m) / m;
    assert a - m == q2 * m + (a - m) % m;
    assert (q - 1 - q2) * m == (a - m) % m - a % m;
    MultipleInOpenRange(q - 1 - q2, m);
  }

  /** Storing into an unsigned field of `width` bits keeps the value modulo 2^width. */
  function Unsigned(x: int, width: nat): (r: nat)
    ensures r < Pow2(width)
    ensures (x - r) % Pow2(width) == 0
    ensures 0 <= x < Pow2(width) ==> r == x
  {
    var m := Pow2(width);
    UnsignedFacts(x, m);
    x % m
  }

  lemma SignedFacts(x: int, width: nat)
    requires width >= 1
    ensures var u := Unsigned(x, width);
      x < 0 && x + Pow2(width - 1) >= 0 ==> u == x + Pow2(width)
  {
    var m := Pow2(width);
    var h := Pow2(width - 1);
    assert m == 2 * h;
    if x < 0 && x + h >= 0 {
      assert 0 <= x + m < m;
      ModSmall(x + m, m);
      ModShiftDown(x + m, m);
      assert x % m == x + m;
    }
  }

  /** Storing into a signed field of `width` bits (two's complement
      wrap-around): the stored value has the same low `width` bits as `x`. */
  function Signed(x: int, width: nat): (r: int)
    requires width >= 1
    ensures -Pow2(width - 1) <= r < Pow2(width - 1)
    ensures Unsigned(r, width) == Unsigned(x, width)
    ensures -Pow2(width - 1) <= x < Pow2(width - 1) ==> r == x
  {
    var u := Unsigned(x, width);
    var r := if u >= Pow2(width - 1) then u - Pow2(width) else u;
    SignedProps(x, width, u, r);
    r
  }

  lemma SignedProps(x: int, width: nat, u: int, r: int)
    requires width >= 1 && u == Unsigned(x, width)
    requires r == if u >= Pow2(width - 1) then u - Pow2(width) else u
    ensures -Pow2(width - 1) <= r < Pow2(width - 1)
    ensures Unsigned(r, width) == u
    ensures -Pow2(width - 1) <= x < Pow2(width - 1) ==> r == x
  {
    var m := Pow2(width);
    var h := Pow2(width - 1);
    assert m == 2 * h;
    SignedFacts(x, width);
    ModSmall(u, m);
    if u >= h {
      ModShiftDown(u, m);
      assert Unsigned(r, width) == (u - m) % m;
    }
  }
}
