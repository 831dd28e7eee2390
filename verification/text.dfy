/**
 Text helpers the codec relies on: the "ascii" codec between `str` and
 `bytes`, decimal rendering (`str(n)`), `str.zfill` and the subset of `int(s, 10)`
 that accepts plain ASCII digit strings.
 */
module Text {
  import opened Slices
  import opened Results

  predicate IsAscii(c: char) { c as int < 128 }

  predicate AllAscii(s: string) { forall i :: 0 <= i < |s| ==> IsAscii(s[i]) }

  predicate AllAsciiBytes(b: seq<byte>) { forall i :: 0 <= i < |b| ==> b[i] < 128 }

  /** `s.encode("ascii")`: fails on the first character outside ASCII. */
  function ToAscii(s: string): (r: Option<seq<byte>>)
    ensures r.Some? <==> AllAscii(s)
    ensures r.Some? ==> |r.value| == |s| && forall i :: 0 <= i < |s| ==> r.value[i] == s[i] as int
  {
    if AllAscii(s) then Some(seq(|s|, i requires 0 <= i < |s| => s[i] as int as byte)) else None
  }

  /** `b.decode("ascii")`: fails on the first byte of 128 or more. */
  function FromAscii(b: seq<byte>): (r: Option<string>)
    ensures r.Some? <==> AllAsciiBytes(b)
    ensures r.Some? ==> |r.value| == |b| && forall i :: 0 <= i < |b| ==> r.value[i] as int == b[i]
  {
    if AllAsciiBytes(b) then Some(seq(|b|, i requires 0 <= i < |b| => b[i] as char)) else None
  }

  /** A slice of an ASCII string is ASCII. */
  lemma AsciiBetween(s: string, a: nat, b: nat)
    requires AllAscii(s)
    ensures AllAscii(Between(s, a, b))
  {
    var r := Between(s, a, b);
    assert r == Take(Drop(s, a), if a <= b then b - a else 0);
    assert forall i :: 0 <= i < |r| ==> r[i] == s[Min(a, |s|) + i];
  }

  /** Decoding the ASCII bytes of a string gives the string back. */
  lemma AsciiRoundTrip(s: string)
    requires AllAscii(s)
    ensures FromAscii(ToAscii(s).value) == Some(s)
  {
    var b := ToAscii(s).value;
    assert FromAscii(b).value == s;
  }

  /** The "ascii" codec works position by position, so it commutes with prefixes. */
  lemma FromAsciiTake(b: seq<byte>, n: nat)
    requires AllAsciiBytes(b)
    ensures FromAscii(Take(b, n)) == Some(Take(FromAscii(b).value, n))
  {
    assert FromAscii(Take(b, n)).value == Take(FromAscii(b).value, n);
  }

  lemma FromAsciiAppend(a: seq<byte>, b: seq<byte>)
    requires AllAsciiBytes(a) && AllAsciiBytes(b)
    ensures FromAscii(a + b) == Some(FromAscii(a).value + FromAscii(b).value)
  {
    assert AllAsciiBytes(a + b);
    assert FromAscii(a + b).value == FromAscii(a).value + FromAscii(b).value;
  }

  predicate IsDigit(c: char) { '0' <= c <= '9' }

  predicate AllDigits(s: string) { forall i :: 0 <= i < |s| ==> IsDigit(s[i]) }

  function DigitChar(d: nat): (c: char)
    requires d < 10
    ensures IsDigit(c) && c as int - '0' as int == d
  {
    ('0' as int + d) as char
  }

  /** Value of a string of decimal digits, most significant first. */
  function DigitsValue(s: string): nat
    requires AllDigits(s)
    decreases |s|
  {
    if |s| == 0 then 0
    else 10 * DigitsValue(s[..|s| - 1]) + (s[|s| - 1] as int - '0' as int)
  }

  /** `int(s, 10)` for strings made only of ASCII digits; anything else is rejected. */
  function ParseDecimal(s: string): (r: Option<nat>)
    ensures r.Some? <==> |s| > 0 && AllDigits(s)
    ensures r.Some? ==> AllDigits(s) && r.value == DigitsValue(s)
  {
    if |s| > 0 && AllDigits(s) then Some(DigitsValue(s)) else None
  }

  /** `str(n)` for a natural number: no sign and no leading zero. */
  function Decimal(n: nat): (s: string)
    ensures |s| > 0 && AllDigits(s)
    ensures s[0] == '0' ==> n == 0
    ensures DigitsValue(s) == n
    decreases n
  {
    if n < 10 then [DigitChar(n)]
    else
      var s := Decimal(n / 10) + [DigitChar(n % 10)];
      assert s[..|s| - 1] == Decimal(n / 10);
      s
  }

  lemma {:induction false} DecimalValue(n: nat)
    ensures DigitsValue(Decimal(n)) == n
    decreases n
  {
    if n >= 10 {
      var s := Decimal(n);
      assert s[..|s| - 1] == Decimal(n / 10);
      DecimalValue(n / 10);
    }
  }

  /** `str(n)` and `int(..., 10)` are inverse on naturals. */
  lemma DecimalRoundTrip(n: nat)
    ensures ParseDecimal(Decimal(n)) == Some(n)
  {
    DecimalValue(n);
  }

  function Pow10(k: nat): nat { if k == 0 then 1 else 10 * Pow10(k - 1) }

  /** A number below 10^k has at most k decimal digits. */
  lemma {:induction false} DecimalWidth(n: nat, k: nat)
    requires 1 <= k && n < Pow10(k)
    ensures |Decimal(n)| <= k
    decreases n
  {
    if n >= 10 {
      assert Pow10(1) == 10;
      DecimalWidth(n / 10, k - 1);
    }
  }

  function Zeros(k: nat): (s: string)
    ensures |s| == k && forall i :: 0 <= i < k ==> s[i] == '0'
  {
    seq(k, _ => '0')
  }

  /** `s.zfill(width)` for an unsigned digit string: left-padded with '0' to `width`. */
  function ZFill(s: string, width: nat): (r: string)
    ensures |r| == Max(width, |s|)
    ensures r[|r| - |s|..] == s
    ensures forall i :: 0 <= i < |r| - |s| ==> r[i] == '0'
  {
    if |s| < width then Zeros(width - |s|) + s else s
  }

  lemma {:induction false} LeadingZeros(k: nat, s: string)
    requires AllDigits(s)
    ensures AllDigits(Zeros(k) + s) && DigitsValue(Zeros(k) + s) == DigitsValue(s)
    decreases |s|
  {
    var z := Zeros(k) + s;
    assert AllDigits(z) by {
      forall i | 0 <= i < |z| ensures IsDigit(z[i]) {
        if i >= k { assert z[i] == s[i - k]; }
      }
    }
    if |s| == 0 {
      ZerosValue(k);
      assert z == Zeros(k);
    } else {
      assert z[..|z| - 1] == Zeros(k) + s[..|s| - 1];
      LeadingZeros(k, s[..|s| - 1]);
    }
  }

  lemma {:induction false} ZerosValue(k: nat)
    ensures DigitsValue(Zeros(k)) == 0
    decreases k
  {
    if k > 0 {
      assert Zeros(k)[..k - 1] == Zeros(k - 1);
      ZerosValue(k - 1);
    }
  }

  /**
   The six-character length field the encoder writes, read back with `int`,
   gives the length back; it is exactly six characters wide below one million.
   */
  lemma LengthFieldRoundTrip(n: nat)
    requires n < 1000000
    ensures |ZFill(Decimal(n), 6)| == 6
    ensures ParseDecimal(ZFill(Decimal(n), 6)) == Some(n)
  {
    assert Pow10(6) == 1000000;
    DecimalWidth(n, 6);
    DecimalValue(n);
    LeadingZeros(6 - |Decimal(n)|, Decimal(n));
  }
}
