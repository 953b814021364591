/**
 * The output file name of one page in `downloadEncryptedPages`
 * (downloadSignedUrls.mjs): "page_" + the 1-based index in decimal,
 * left-padded with '0' to at least three characters, + ".webp".
 */
module PageNames {
  const PagePrefix: string := "page_"
  const PageExtension: string := ".webp"
  const PageNumberWidth: nat := 3

  predicate IsDigit(c: char) {
    '0' <= c <= '9'
  }

  predicate AllDigits(s: string) {
    forall i | 0 <= i < |s| :: IsDigit(s[i])
  }

  function DigitChar(d: nat): (c: char)
    requires d < 10
    ensures IsDigit(c)
  {
    ('0' as int + d) as char
  }

  function DigitValue(c: char): nat
    requires IsDigit(c)
  {
    c as int - '0' as int
  }

  /** `Number.prototype.toString()` of a non-negative integer: decimal, no leading zero. */
  function DecimalString(n: nat): (s: string)
    ensures 1 <= |s| && AllDigits(s)
    ensures s[0] == '0' ==> n == 0
  {
    if n < 10 then [DigitChar(n)] else DecimalString(n / 10) + [DigitChar(n % 10)]
  }

  /** The number a string of decimal digits denotes; leading zeros add nothing. */
  function DecimalValue(s: string): nat
    requires AllDigits(s)
  {
    if s == [] then 0 else DecimalValue(s[..|s| - 1]) * 10 + DigitValue(s[|s| - 1])
  }

  /** `s.padStart(width, fill)` with a one-character fill string. */
  function PadStart(s: string, width: nat, fill: char): (r: string)
    ensures |r| == if |s| < width then width else |s|
    ensures r[|r| - |s|..] == s
    ensures forall i | 0 <= i < |r| - |s| :: r[i] == fill
  {
    if |s| >= width then s else seq(width - |s|, _ => fill) + s
  }

  /** The file name of the page at 0-based position index. */
  function PageFileName(index: nat): string {
    PagePrefix + PadStart(DecimalString(index + 1), PageNumberWidth, '0') + PageExtension
  }

  lemma {:induction false} DecimalRoundTrip(n: nat)
    ensures DecimalValue(DecimalString(n)) == n
  {
    if n >= 10 {
      var s := DecimalString(n);
      assert s[..|s| - 1] == DecimalString(n / 10);
      DecimalRoundTrip(n / 10);
    } else {
      assert DecimalString(n)[..0] == [];
    }
  }

  lemma {:induction false} LeadingZeros(z: string, s: string)
    requires AllDigits(s) && forall i | 0 <= i < |z| :: z[i] == '0'
    ensures AllDigits(z + s) && DecimalValue(z + s) == DecimalValue(s)
    decreases |z| + |s|
  {
    if s == [] {
      assert z + s == z;
      if z != [] {
        LeadingZeros(z[..|z| - 1], []);
        assert z[..|z| - 1] + [] == z[..|z| - 1];
      }
    } else {
      var w := z + s;
      assert w[..|w| - 1] == z + s[..|s| - 1];
      LeadingZeros(z, s[..|s| - 1]);
    }
  }

  /**
   * A page name is the prefix, a run of at least three digits that denotes
   * index + 1, and the extension; the run is the whole decimal numeral,
   * never truncated.
   */
  lemma PageFileNameNumber(index: nat)
    ensures var name := PageFileName(index);
      && |name| >= |PagePrefix| + PageNumberWidth + |PageExtension|
      && name[..|PagePrefix|] == PagePrefix
      && name[|name| - |PageExtension|..] == PageExtension
      && var number := name[|PagePrefix|..|name| - |PageExtension|];
         && |number| >= PageNumberWidth
         && number[|number| - |DecimalString(index + 1)|..] == DecimalString(index + 1)
         && AllDigits(number) && DecimalValue(number) == index + 1
  {
    var d := DecimalString(index + 1);
    var number := PadStart(d, PageNumberWidth, '0');
    var name := PageFileName(index);
    assert name == PagePrefix + number + PageExtension;
    assert name[|PagePrefix|..|name| - |PageExtension|] == number;
    var z := number[..|number| - |d|];
    assert number == z + d;
    LeadingZeros(z, d);
    DecimalRoundTrip(index + 1);
  }

  /** Different positions get different file names. */
  lemma PageFileNamesDistinct(i: nat, j: nat)
    requires i != j
    ensures PageFileName(i) != PageFileName(j)
  {
    PageFileNameNumber(i);
    PageFileNameNumber(j);
  }

  /** The first, the twelfth and the thousandth page. */
  lemma PageFileNameExamples()
    ensures PageFileName(0) == "page_001.webp"
    ensures PageFileName(11) == "page_012.webp"
    ensures PageFileName(999) == "page_1000.webp"
  {
    assert DecimalString(1) == "1";
    assert DecimalString(12) == "12";
    assert DecimalString(1000) == "1000";
  }
}
