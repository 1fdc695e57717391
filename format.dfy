/**
 * The pieces of Python string formatting the plugin relies on:
 * decimal rendering of integers, decimal and lower-case hex rendering zero-padded to a width,
 * `str.ljust` and `str.split` with an explicit separator.
 */
module Format {

  function Max(a: int, b: int): int { if a < b then b else a }

  /** The character Python prints for digit `d` (lower-case for hexadecimal). */
  function DigitChar(d: nat): (c: char)
    requires d < 16
    ensures '0' <= c <= '9' || 'a' <= c <= 'f'
  {
    if d < 10 then ('0' as int + d) as char else ('a' as int + d - 10) as char
  }

  function DigitValue(c: char): nat
  {
    if '0' <= c <= '9' then c as int - '0' as int
    else if 'a' <= c <= 'f' then c as int - 'a' as int + 10
    else 0
  }

  predicate IsDigitChar(c: char) { '0' <= c <= '9' || 'a' <= c <= 'f' }

  lemma DivideByBase(n: nat, base: nat)
    requires 2 <= base <= n
    ensures 1 <= n / base < n
    ensures n == n / base * base + n % base && n % base < base
  {
    var q, r := n / base, n % base;
    assert n == q * base + r && r < base;
    assert q * base == q * (base - 2) + 2 * q;
    assert q * (base - 2) >= 0;
  }

  /** The digits of `n` in `base`, most significant first, without leading zeros. */
  function Digits(n: nat, base: nat): (s: string)
    requires 2 <= base <= 16
    ensures 1 <= |s|
    ensures forall i :: 0 <= i < |s| ==> IsDigitChar(s[i])
    ensures s[0] == '0' ==> n == 0
    decreases n
  {
    if n < base then [DigitChar(n)]
    else
      DivideByBase(n, base);
      Digits(n / base, base) + [DigitChar(n % base)]
  }

  /** In a base up to ten every digit is one of '0' to '9'. */
  lemma {:induction false} DecimalDigitChars(n: nat, base: nat)
    requires 2 <= base <= 10
    ensures forall i :: 0 <= i < |Digits(n, base)| ==> '0' <= Digits(n, base)[i] <= '9'
    decreases n
  {
    if n >= base {
      DivideByBase(n, base);
      DecimalDigitChars(n / base, base);
      assert Digits(n, base) == Digits(n / base, base) + [DigitChar(n % base)];
    }
  }

  /** `str(n)` for a non-negative integer. */
  function Decimal(n: nat): string { Digits(n, 10) }

  /** `format(n, "x")`. */
  function LowerHex(n: nat): string { Digits(n, 16) }

  /** `str(i)` for any integer. */
  function IntToString(i: int): string
  {
    if i < 0 then "-" + Decimal(-i) else Decimal(i)
  }

  /** The value of a digit string: the inverse of Digits. */
  function ParseDigits(s: string, base: nat): nat
  {
    if s == [] then 0 else ParseDigits(s[..|s| - 1], base) * base + DigitValue(s[|s| - 1])
  }

  lemma {:induction false} ParseDigitsInverse(n: nat, base: nat)
    requires 2 <= base <= 16
    ensures ParseDigits(Digits(n, base), base) == n
    decreases n
  {
    if n >= base {
      var s := Digits(n, base);
      DivideByBase(n, base);
      assert s[..|s| - 1] == Digits(n / base, base);
      ParseDigitsInverse(n / base, base);
    }
  }

  /** Distinct numbers print differently. */
  lemma DecimalInjective(m: nat, n: nat)
    requires Decimal(m) == Decimal(n)
    ensures m == n
  {
    ParseDigitsInverse(m, 10);
    ParseDigitsInverse(n, 10);
  }

  function Repeat(c: char, n: nat): (r: string)
    ensures |r| == n && forall i :: 0 <= i < n ==> r[i] == c
  {
    seq(n, _ => c)
  }

  /**
   * The `0<width>` format specification applied to the digits `s` of a
   * non-negative number: zeros on the left up to `width`, never truncated.
   */
  function ZeroPad(s: string, width: nat): string
  {
    if |s| < width then Repeat('0', width - |s|) + s else s
  }

  lemma ZeroPadShape(s: string, width: nat)
    ensures |ZeroPad(s, width)| == Max(|s|, width)
    ensures ZeroPad(s, width)[|ZeroPad(s, width)| - |s|..] == s
    ensures forall i :: 0 <= i < |ZeroPad(s, width)| - |s| ==> ZeroPad(s, width)[i] == '0'
  {
  }

  lemma {:induction false} ParseZeros(k: nat, base: nat)
    ensures ParseDigits(Repeat('0', k), base) == 0
  {
    if k > 0 {
      assert Repeat('0', k)[..k - 1] == Repeat('0', k - 1);
      ParseZeros(k - 1, base);
    }
  }

  lemma {:induction false} ParseLeadingZeros(k: nat, s: string, base: nat)
    ensures ParseDigits(Repeat('0', k) + s, base) == ParseDigits(s, base)
    decreases |s|
  {
    if s == [] {
      assert Repeat('0', k) + s == Repeat('0', k);
      ParseZeros(k, base);
    } else {
      var t := Repeat('0', k) + s;
      assert t[..|t| - 1] == Repeat('0', k) + s[..|s| - 1];
      ParseLeadingZeros(k, s[..|s| - 1], base);
    }
  }

  /** Zero padding never changes the value a number prints as. */
  lemma ZeroPadValue(n: nat, base: nat, width: nat)
    requires 2 <= base <= 16
    ensures ParseDigits(ZeroPad(Digits(n, base), width), base) == n
  {
    var s := Digits(n, base);
    if |s| < width {
      ParseLeadingZeros(width - |s|, s, base);
    }
    ParseDigitsInverse(n, base);
  }

  /** `s.ljust(width, fill)`: pads on the right and never truncates. */
  function LJust(s: string, width: nat, fill: char): (r: string)
    ensures |r| == Max(|s|, width)
    ensures r[..|s|] == s
    ensures forall i :: |s| <= i < |r| ==> r[i] == fill
  {
    if |s| < width then s + Repeat(fill, width - |s|) else s
  }

  /** `s.split(sep)` for a one-character separator. */
  function Split(s: string, sep: char): (parts: seq<string>)
    ensures 1 <= |parts|
    ensures forall p :: p in parts ==> sep !in p
  {
    if s == [] then [""]
    else
      var rest := Split(s[1..], sep);
      if s[0] == sep then [""] + rest else [[s[0]] + rest[0]] + rest[1..]
  }

  /** `sep.join(parts)`. */
  function Join(parts: seq<string>, sep: char): string
    requires 1 <= |parts|
  {
    if |parts| == 1 then parts[0] else parts[0] + [sep] + Join(parts[1..], sep)
  }

  lemma {:induction false} JoinSplit(s: string, sep: char)
    ensures Join(Split(s, sep), sep) == s
  {
    if s != [] {
      var rest := Split(s[1..], sep);
      JoinSplit(s[1..], sep);
      if s[0] != sep {
        var parts := Split(s, sep);
        if |rest| == 1 {
          assert parts == [[s[0]] + rest[0]];
        } else {
          assert parts[1..] == rest[1..];
          assert Join(rest, sep) == rest[0] + [sep] + Join(rest[1..], sep);
        }
      }
    }
  }

  /** The text before the first separator is the first part; the rest is split on its own. */
  lemma {:induction false} SplitAtSeparator(a: string, b: string, sep: char)
    requires sep !in a
    ensures Split(a + [sep] + b, sep) == [a] + Split(b, sep)
  {
    if a == [] {
      assert a + [sep] + b == [sep] + b;
      assert ([sep] + b)[1..] == b;
    } else {
      assert (a + [sep] + b)[1..] == a[1..] + [sep] + b;
      SplitAtSeparator(a[1..], b, sep);
      assert [a[0]] + a[1..] == a;
    }
  }

  lemma {:induction false} SplitNoSeparator(a: string, sep: char)
    requires sep !in a
    ensures Split(a, sep) == [a]
  {
    if a != [] {
      SplitNoSeparator(a[1..], sep);
      assert [a[0]] + a[1..] == a;
    }
  }

  lemma {:induction false} SplitJoin(parts: seq<string>, sep: char)
    requires 1 <= |parts|
    requires forall p :: p in parts ==> sep !in p
    ensures Split(Join(parts, sep), sep) == parts
  {
    if |parts| == 1 {
      SplitNoSeparator(parts[0], sep);
    } else {
      SplitJoin(parts[1..], sep);
      SplitAtSeparator(parts[0], Join(parts[1..], sep), sep);
    }
  }

  // ---------------------------------------------------------------------------
  // How many digits a number has

  /** `base` to the power `k`. */
  function Pow(base: nat, k: nat): nat
  {
    if k == 0 then 1 else base * Pow(base, k - 1)
  }

  /** The quotient of a number below `base * p` is below `p`. */
  lemma QuotientBelow(n: nat, q: nat, r: nat, base: nat, p: nat)
    requires n == q * base + r && n < base * p
    ensures q < p
  {
    MulMono(p, q, base);
  }

  /** A number below `base^k` has at most `k` digits. */
  lemma {:induction false} DigitsShort(n: nat, base: nat, k: nat)
    requires 2 <= base <= 16 && 1 <= k && n < Pow(base, k)
    ensures |Digits(n, base)| <= k
  {
    if n >= base {
      DivideByBase(n, base);
      QuotientBelow(n, n / base, n % base, base, Pow(base, k - 1));
      DigitsShort(n / base, base, k - 1);
    }
  }

  /** Multiplying by the same factor keeps the order. */
  lemma MulMono(a: nat, b: nat, c: nat)
    ensures a <= b ==> a * c <= b * c
  {
  }

  /** Powers of a positive base grow with the exponent. */
  lemma {:induction false} PowMono(base: nat, i: nat, j: nat)
    requires base >= 1
    ensures i <= j ==> Pow(base, i) <= Pow(base, j)
  {
    if i < j {
      PowMono(base, i, j - 1);
      MulMono(1, base, Pow(base, j - 1));
    }
  }

  /** `q * base + r` with `r < base` stays below `base * p` whenever `q < p`. */
  lemma BelowNextMultiple(n: nat, q: nat, r: nat, base: nat, p: nat)
    requires n == q * base + r && r < base && q < p
    ensures n < base * p
  {
    assert (q + 1) * base == q * base + base;
    MulMono(q + 1, p, base);
  }

  /** A number is below `base` to the power of its number of digits. */
  lemma {:induction false} DigitsBound(n: nat, base: nat)
    requires 2 <= base <= 16
    ensures n < Pow(base, |Digits(n, base)|)
    decreases n
  {
    if n >= base {
      DivideByBase(n, base);
      var q := n / base;
      DigitsBound(q, base);
      var m := |Digits(q, base)|;
      assert |Digits(n, base)| == m + 1;
      BelowNextMultiple(n, q, n % base, base, Pow(base, m));
    } else {
      assert Pow(base, 1) == base * 1;
    }
  }

  /** A number of at least `base^k` has more than `k` digits. */
  lemma DigitsLong(n: nat, base: nat, k: nat)
    requires 2 <= base <= 16 && n >= Pow(base, k)
    ensures |Digits(n, base)| > k
  {
    DigitsBound(n, base);
    PowMono(base, |Digits(n, base)|, k);
  }

  // ---------------------------------------------------------------------------
  // Rendering any integer

  /** The sign of an integer shows in the first character of its text. */
  lemma IntToStringSign(i: int)
    ensures |IntToString(i)| >= 1
    ensures IntToString(i)[0] == '-' <==> i < 0
  {
    if i >= 0 {
      assert IsDigitChar(Decimal(i)[0]);
    }
  }

  /** Distinct integers, negative ones included, print differently. */
  lemma IntToStringInjective(i: int, j: int)
    requires IntToString(i) == IntToString(j)
    ensures i == j
  {
    IntToStringSign(i);
    IntToStringSign(j);
    if i < 0 {
      assert Decimal(-i) == IntToString(i)[1..] == IntToString(j)[1..] == Decimal(-j);
      DecimalInjective(-i, -j);
    } else {
      DecimalInjective(i, j);
    }
  }
}
