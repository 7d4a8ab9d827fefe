/** The text of request ids: database.py formats its counter as `f"{n:05d}"`, app.py cuts the
    first five characters of a uuid and applies `str.zfill(5)`. */
module RequestIds {

  predicate IsDigit(c: char) {
    '0' <= c <= '9'
  }

  predicate IsDigits(s: string) {
    forall i :: 0 <= i < |s| ==> IsDigit(s[i])
  }

  function DigitChar(d: nat): (c: char)
    requires d < 10
    ensures IsDigit(c)
  {
    (48 + d) as char
  }

  function DigitValue(c: char): (d: nat)
    requires IsDigit(c)
    ensures d < 10 && DigitChar(d) == c
  {
    c as int - 48
  }

  /** The shortest decimal text of `n` (`str(n)`). */
  function Decimal(n: nat): (s: string)
    ensures |s| >= 1 && IsDigits(s)
    decreases n
  {
    if n < 10 then [DigitChar(n)] else Decimal(n / 10) + [DigitChar(n % 10)]
  }

  function Zeros(k: nat): (s: string)
    ensures |s| == k && IsDigits(s)
  {
    if k == 0 then "" else Zeros(k - 1) + "0"
  }

  /** `f"{n:05d}"` for a non-negative `n`: the decimal text, left-padded with zeros to at
      least five characters. */
  function FormatCounter(n: nat): (s: string)
    ensures IsDigits(s)
  {
    var d := Decimal(n);
    if |d| < 5 then Zeros(5 - |d|) + d else d
  }

  /** The number a digit text denotes (`int(s)`), most significant digit first. */
  function ValueOf(s: string): nat
    requires IsDigits(s)
    decreases |s|
  {
    if s == [] then 0 else ValueOf(s[..|s| - 1]) * 10 + DigitValue(s[|s| - 1])
  }

  function Pow10(k: nat): (p: nat)
    ensures p >= 1
  {
    if k == 0 then 1 else 10 * Pow10(k - 1)
  }

  lemma {:induction false} ValueOfDecimal(n: nat)
    ensures ValueOf(Decimal(n)) == n
    decreases n
  {
    if n >= 10 {
      var d := Decimal(n / 10);
      assert (d + [DigitChar(n % 10)])[..|d|] == d;
      ValueOfDecimal(n / 10);
    }
  }

  lemma {:induction false} ValueOfZerosPrefix(k: nat, s: string)
    requires IsDigits(s)
    ensures ValueOf(Zeros(k) + s) == ValueOf(s)
    decreases |s|, k
  {
    if s == [] {
      assert Zeros(k) + s == Zeros(k);
      if k > 0 {
        assert Zeros(k)[..k - 1] == Zeros(k - 1);
        ValueOfZerosPrefix(k - 1, s);
        assert Zeros(k - 1) + s == Zeros(k - 1);
      }
    } else {
      var t := Zeros(k) + s;
      assert t[..|t| - 1] == Zeros(k) + s[..|s| - 1];
      ValueOfZerosPrefix(k, s[..|s| - 1]);
    }
  }

  /** The counter can be read back from the id it was formatted into. */
  lemma FormatCounterRoundTrip(n: nat)
    ensures ValueOf(FormatCounter(n)) == n
  {
    var d := Decimal(n);
    ValueOfDecimal(n);
    if |d| < 5 {
      ValueOfZerosPrefix(5 - |d|, d);
    }
  }

  /** Distinct counter values give distinct ids. */
  lemma FormatCounterInjective(m: nat, n: nat)
    ensures FormatCounter(m) == FormatCounter(n) <==> m == n
  {
    FormatCounterRoundTrip(m);
    FormatCounterRoundTrip(n);
  }

  /** The decimal text of `n` has at most `k` digits exactly when `n < 10^k`. */
  lemma {:induction false} DecimalLength(n: nat, k: nat)
    requires k >= 1
    ensures |Decimal(n)| <= k <==> n < Pow10(k)
    decreases n
  {
    if n >= 10 {
      if k > 1 {
        DecimalLength(n / 10, k - 1);
        assert n / 10 < Pow10(k - 1) <==> n < 10 * Pow10(k - 1);
      }
    } else if k > 1 {
      assert Pow10(k) == 10 * Pow10(k - 1);
    }
  }

  /** `{:05d}` is a minimum width: exactly five digits below 100000, the plain decimal text
      (more than five digits) from 100000 on. */
  lemma FormatCounterWidth(n: nat)
    ensures n < 100000 ==> |FormatCounter(n)| == 5
    ensures n >= 100000 ==> |FormatCounter(n)| > 5 && FormatCounter(n) == Decimal(n)
  {
    assert Pow10(5) == 100000;
    DecimalLength(n, 5);
  }

  /** Python's `str.zfill(width)`: pads with zeros on the left to `width` characters, keeping
      a leading sign in front of the zeros; a text already that long is unchanged. */
  function ZFill(s: string, width: nat): (r: string)
    ensures |r| == if |s| >= width then |s| else width
    ensures |s| >= width ==> r == s
    ensures |s| < width && (|s| == 0 || (s[0] != '+' && s[0] != '-')) ==>
      r[..width - |s|] == Zeros(width - |s|) && r[width - |s|..] == s
    ensures |s| < width && |s| > 0 && (s[0] == '+' || s[0] == '-') ==>
      r[0] == s[0] && r[1..width - |s| + 1] == Zeros(width - |s|) && r[width - |s| + 1..] == s[1..]
  {
    if |s| >= width then s
    else if |s| > 0 && (s[0] == '+' || s[0] == '-') then [s[0]] + Zeros(width - |s|) + s[1..]
    else Zeros(width - |s|) + s
  }

  /** Every character of `Zeros(k)` is `'0'`. */
  lemma {:induction false} ZerosAreZeros(k: nat)
    ensures forall i :: 0 <= i < k ==> Zeros(k)[i] == '0'
  {
    if k > 0 {
      ZerosAreZeros(k - 1);
      assert Zeros(k) == Zeros(k - 1) + "0";
    }
  }

  /** The characters `zfill` puts in front of a shorter text, or between its sign and its
      digits, are all `'0'`. */
  lemma ZFillPadsWithZeros(s: string, width: nat)
    ensures |s| < width && (|s| == 0 || (s[0] != '+' && s[0] != '-')) ==>
      forall i :: 0 <= i < width - |s| ==> ZFill(s, width)[i] == '0'
    ensures |s| < width && |s| > 0 && (s[0] == '+' || s[0] == '-') ==>
      forall i :: 1 <= i <= width - |s| ==> ZFill(s, width)[i] == '0'
  {
    if |s| < width {
      ZerosAreZeros(width - |s|);
      var r := ZFill(s, width);
      if |s| == 0 || (s[0] != '+' && s[0] != '-') {
        forall i | 0 <= i < width - |s| ensures r[i] == '0' {
          assert r[i] == r[..width - |s|][i];
        }
      } else {
        forall i | 1 <= i <= width - |s| ensures r[i] == '0' {
          assert r[i] == r[1..width - |s| + 1][i - 1];
        }
      }
    }
  }

  /** Python slicing `s[:n]`: the first `n` characters, or all of a shorter text. */
  function Prefix(s: string, n: nat): (r: string)
    ensures |r| == if |s| < n then |s| else n
    ensures r == s[..|r|]
  {
    if |s| < n then s else s[..n]
  }

  /** `str(uuid.uuid4())[:5].zfill(5)`, given the uuid's text. The id always has five
      characters, and for any text of five or more characters (a uuid has 36) `zfill` does
      nothing: the id is the first five characters. */
  function UuidRequestId(uuidText: string): (id: string)
    ensures |id| == 5
    ensures |uuidText| >= 5 ==> id == uuidText[..5]
  {
    ZFill(Prefix(uuidText, 5), 5)
  }
}
