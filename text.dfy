/**
 * The decimal text the extractor prints into names: `sprintf("%0*d", 5, i)`
 * for anonymous files and `sprintf("UNC_%d", k)` for tail resources, and the
 * byte-to-character view of names read out of a buffer.
 */
module Text {
  import opened Bytes

  predicate IsDigit(c: char) { '0' <= c <= '9' }

  predicate AllDigits(s: string) { forall k :: 0 <= k < |s| ==> IsDigit(s[k]) }

  function Zeros(z: nat): (r: string)
    ensures |r| == z && AllDigits(r)
  {
    seq(z, _ => '0')
  }

  function DigitChar(d: nat): (c: char)
    requires d < 10
    ensures IsDigit(c)
  {
    "0123456789"[d]
  }

  function DigitValue(c: char): (d: nat)
    requires IsDigit(c)
    ensures d < 10
  {
    (c as int - '0' as int) as nat
  }

  /** `%d` of a non-negative value: its decimal digits, without leading zeros. */
  function Decimal(n: nat): (s: string)
    ensures |s| >= 1
    ensures AllDigits(s)
    ensures n < 10 <==> |s| == 1
  {
    if n < 10 then [DigitChar(n)] else Decimal(n / 10) + [DigitChar(n % 10)]
  }

  /** Left-pads with '0' up to `width` characters, as the `0` flag of printf does. */
  function ZeroPad(s: string, width: nat): (r: string)
    ensures |r| == if |s| < width then width else |s|
    ensures r[|r| - |s|..] == s
    ensures forall k :: 0 <= k < |r| - |s| ==> r[k] == '0'
  {
    if |s| < width then Zeros(width - |s|) + s else s
  }

  /** `sprintf("%0*d", 5, i)`: the name given to a file whose header names nothing. */
  function PaddedIndex(i: nat): string
  {
    ZeroPad(Decimal(i), 5)
  }

  /** `sprintf("UNC_%d", k)`: the folder name of the k-th resource recovered from the tail. */
  function UncName(k: nat): string
  {
    "UNC_" + Decimal(k)
  }

  /** Reads a string of decimal digits back as a number. */
  function ParseDecimal(s: string): nat
    requires AllDigits(s)
  {
    if s == [] then 0 else 10 * ParseDecimal(s[..|s| - 1]) + DigitValue(s[|s| - 1])
  }

  lemma {:induction false} DecimalRoundTrip(n: nat)
    ensures ParseDecimal(Decimal(n)) == n
  {
    if n >= 10 {
      var s := Decimal(n);
      assert s[..|s| - 1] == Decimal(n / 10);
      DecimalRoundTrip(n / 10);
    }
  }

  lemma {:induction false} DecimalLength(n: nat, w: nat)
    requires n < Pow10(w) && w >= 1
    ensures |Decimal(n)| <= w
    decreases w
  {
    if n >= 10 {
      DecimalLength(n / 10, w - 1);
    }
  }

  function Pow10(w: nat): (p: nat)
    ensures p >= 1
  {
    if w == 0 then 1 else 10 * Pow10(w - 1)
  }

  /** Leading zeros do not change the value read back. */
  lemma {:induction false} ParseLeadingZeros(z: nat, s: string)
    requires AllDigits(s)
    ensures AllDigits(Zeros(z) + s)
    ensures ParseDecimal(Zeros(z) + s) == ParseDecimal(s)
    decreases |s| + z
  {
    var t := Zeros(z) + s;
    if s == [] {
      if z > 0 {
        assert t[..|t| - 1] == Zeros(z - 1) + [];
        ParseLeadingZeros(z - 1, []);
      }
    } else {
      assert t[..|t| - 1] == Zeros(z) + s[..|s| - 1];
      ParseLeadingZeros(z, s[..|s| - 1]);
    }
  }

  /**
   * The padded name of entry `i` is all digits, at least five long, exactly five
   * below 100000, and reads back as `i`: distinct entries get distinct names.
   */
  lemma PaddedIndexShape(i: nat)
    ensures |PaddedIndex(i)| >= 5
    ensures i < 100000 ==> |PaddedIndex(i)| == 5
    ensures AllDigits(PaddedIndex(i))
    ensures ParseDecimal(PaddedIndex(i)) == i
  {
    var d := Decimal(i);
    if i < 100000 {
      assert Pow10(5) == 100000;
      DecimalLength(i, 5);
    }
    DecimalRoundTrip(i);
    if |d| < 5 {
      ParseLeadingZeros(5 - |d|, d);
    }
  }

  /** Names read out of a buffer: each byte is taken as the character with that code. */
  function Latin1(bs: seq<byte>): (s: string)
    ensures |s| == |bs|
    ensures forall k :: 0 <= k < |bs| ==> s[k] as int == bs[k] as int
  {
    seq(|bs|, k requires 0 <= k < |bs| => bs[k] as int as char)
  }
}
