/** Decimal numerals: Python's `int()` of a digit run and the zero-padded `{n:0Wd}` format. */
module Numerals {
  import opened Strings
  import opened Lex

  function DigitValue(c: char): (d: nat)
    requires IsDigit(c)
    ensures d < 10
  {
    c as int - '0' as int
  }

  function DigitChar(d: nat): (c: char)
    requires d < 10
    ensures IsDigit(c) && DigitValue(c) == d
  {
    ('0' as int + d) as char
  }

  /** The value of a string of decimal digits; leading zeros are allowed, as in `int('007')`. */
  function ParseNat(s: string): nat
    requires AllDigits(s)
    decreases |s|
  {
    if |s| == 0 then 0 else ParseNat(s[..|s| - 1]) * 10 + DigitValue(s[|s| - 1])
  }

  lemma ParseNatSnoc(s: string, c: char)
    requires AllDigits(s) && IsDigit(c)
    ensures AllDigits(s + [c])
    ensures ParseNat(s + [c]) == ParseNat(s) * 10 + DigitValue(c)
  {
    assert (s + [c])[..|s|] == s;
  }

  /** The shortest decimal numeral of `n` (Python's `str(n)`); reading it back gives `n`. */
  function ShowNat(n: nat): (s: string)
    ensures |s| >= 1 && AllDigits(s)
    ensures |s| > 1 ==> s[0] != '0'
    ensures ParseNat(s) == n
  {
    if n < 10 then [DigitChar(n)]
    else
      var s := ShowNat(n / 10) + [DigitChar(n % 10)];
      ParseNatSnoc(ShowNat(n / 10), DigitChar(n % 10));
      s
  }

  function Pow10(k: nat): (p: nat)
    ensures p >= 1
  {
    if k == 0 then 1 else 10 * Pow10(k - 1)
  }

  /** The shortest numeral of `n` fits in `k` characters exactly when `n < 10^k`. */
  lemma {:induction false} ShowNatLength(n: nat, k: nat)
    requires k >= 1
    ensures |ShowNat(n)| <= k <==> n < Pow10(k)
  {
    if n >= 10 {
      if k == 1 {
        assert |ShowNat(n)| == |ShowNat(n / 10)| + 1;
      } else {
        ShowNatLength(n / 10, k - 1);
      }
    } else if k > 1 {
      PowMonotone(1, k);
    }
  }

  lemma {:induction false} PowMonotone(j: nat, k: nat)
    requires j <= k
    ensures Pow10(j) <= Pow10(k)
  {
    if j < k {
      PowMonotone(j, k - 1);
    }
  }

  function Zeros(k: nat): (z: string)
    ensures |z| == k && AllDigits(z)
    ensures forall i :: 0 <= i < k ==> z[i] == '0'
  {
    if k == 0 then [] else Zeros(k - 1) + ['0']
  }

  /** `s` padded on the left with `'0'` to width `w`; a longer `s` is left whole, never truncated. */
  function PadLeft(s: string, w: nat): (r: string)
    ensures |r| == if |s| < w then w else |s|
    ensures r[|r| - |s|..] == s
    ensures forall i :: 0 <= i < |r| - |s| ==> r[i] == '0'
  {
    if |s| < w then Zeros(w - |s|) + s else s
  }

  lemma {:induction false} ParseNatZeros(k: nat)
    ensures ParseNat(Zeros(k)) == 0
  {
    if k > 0 {
      ParseNatZeros(k - 1);
      ParseNatSnoc(Zeros(k - 1), '0');
    }
  }

  /** Leading zeros do not change the value of a numeral. */
  lemma {:induction false} ParseNatLeadingZeros(k: nat, s: string)
    requires AllDigits(s)
    ensures AllDigits(Zeros(k) + s)
    ensures ParseNat(Zeros(k) + s) == ParseNat(s)
  {
    if |s| == 0 {
      assert Zeros(k) + s == Zeros(k);
      ParseNatZeros(k);
    } else {
      var init, last := s[..|s| - 1], s[|s| - 1];
      assert s == init + [last];
      assert Zeros(k) + s == (Zeros(k) + init) + [last];
      ParseNatLeadingZeros(k, init);
      ParseNatSnoc(Zeros(k) + init, last);
      ParseNatSnoc(init, last);
    }
  }

  /** The last `w` decimal digits of `n`, always exactly `w` characters. */
  function Fixed(n: nat, w: nat): (s: string)
    ensures |s| == w && AllDigits(s)
  {
    if w == 0 then [] else Fixed(n / 10, w - 1) + [DigitChar(n % 10)]
  }

  lemma {:induction false} ParseFixed(n: nat, w: nat)
    requires n < Pow10(w)
    ensures ParseNat(Fixed(n, w)) == n
  {
    if w > 0 {
      ParseFixed(n / 10, w - 1);
      ParseNatSnoc(Fixed(n / 10, w - 1), DigitChar(n % 10));
    }
  }

  lemma {:induction false} FixedZero(w: nat)
    ensures Fixed(0, w) == Zeros(w)
  {
    if w > 0 {
      FixedZero(w - 1);
    }
  }

  /** For a number below `10^w`, zero-padding its numeral to width `w` gives its `w`-digit form. */
  lemma {:induction false} PadShowIsFixed(n: nat, w: nat)
    requires w >= 1 && n < Pow10(w)
    ensures PadLeft(ShowNat(n), w) == Fixed(n, w)
  {
    if n < 10 {
      FixedZero(w - 1);
      assert Fixed(n, w) == Fixed(0, w - 1) + [DigitChar(n)];
    } else {
      assert Pow10(1) == 10;
      assert w >= 2;
      assert n / 10 < Pow10(w - 1);
      var h := ShowNat(n / 10);
      var d := [DigitChar(n % 10)];
      assert ShowNat(n) == h + d;
      PadShowIsFixed(n / 10, w - 1);
      assert Fixed(n, w) == Fixed(n / 10, w - 1) + d;
      ShowNatLength(n / 10, w - 1);
      assert |h| <= w - 1;
      PadSnoc(h, d, w);
    }
  }

  lemma PadSnoc(h: string, d: string, w: nat)
    requires |d| == 1 && |h| + 1 <= w
    ensures PadLeft(h + d, w) == PadLeft(h, w - 1) + d
  {
    if |h| + 1 < w {
      assert Zeros(w - |h| - 1) + (h + d) == (Zeros(w - 1 - |h|) + h) + d;
    }
  }

  /** Fixed-width numerals of the same width sort in numeric order. */
  lemma {:induction false} FixedOrder(a: nat, b: nat, w: nat)
    requires a < Pow10(w) && b < Pow10(w)
    ensures LexLe(Fixed(a, w), Fixed(b, w)) <==> a <= b
  {
    if w > 0 {
      var ha, hb := Fixed(a / 10, w - 1), Fixed(b / 10, w - 1);
      var ca, cb := DigitChar(a % 10), DigitChar(b % 10);
      FixedOrder(a / 10, b / 10, w - 1);
      LexLeConcat(ha, [ca], hb, [cb]);
      ParseFixed(a / 10, w - 1);
      ParseFixed(b / 10, w - 1);
      assert ha == hb <==> a / 10 == b / 10;
      assert LexLe([ca], [cb]) <==> a % 10 <= b % 10;
    } else {
      assert a == 0 && b == 0;
    }
  }
}
