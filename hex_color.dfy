/** `hexToRgb`: reads a CSS colour such as "#1f2937" into its three
    components, and the formatting that writes components back as hex. */
module HexColor {

  /** A digit `parseInt(_, 16)` accepts, in either case. */
  predicate IsHexDigit(c: char)
  {
    '0' <= c <= '9' || 'a' <= c <= 'f' || 'A' <= c <= 'F'
  }

  function DigitValue(c: char): (v: nat)
    requires IsHexDigit(c)
    ensures v < 16
    ensures '0' <= c <= '9' ==> v == c as int - '0' as int
    ensures 'a' <= c <= 'f' ==> v == c as int - 'a' as int + 10
    ensures 'A' <= c <= 'F' ==> v == c as int - 'A' as int + 10
  {
    if '0' <= c <= '9' then c as int - '0' as int
    else if 'a' <= c <= 'f' then c as int - 'a' as int + 10
    else c as int - 'A' as int + 10
  }

  /** The lower-case digit for a value below 16. */
  function LowerDigit(v: nat): (c: char)
    requires v < 16
    ensures IsHexDigit(c) && DigitValue(c) == v
    ensures !('A' <= c <= 'F')
  {
    if v < 10 then ('0' as int + v) as char else ('a' as int + v - 10) as char
  }

  /** Position of the first '#' in `s`, or |s| when there is none. */
  function HashIndex(s: string): (k: nat)
    ensures k <= |s|
    ensures k < |s| ==> s[k] == '#'
    ensures forall j :: 0 <= j < k ==> s[j] != '#'
  {
    if s == [] || s[0] == '#' then 0 else 1 + HashIndex(s[1..])
  }

  /** `s.replace('#', '')`: a string pattern replaces only its first occurrence. */
  function StripHash(s: string): (r: string)
    ensures HashIndex(s) == |s| <==> '#' !in s
    ensures '#' !in s ==> r == s
    ensures '#' in s ==> |r| == |s| - 1
    ensures '#' in s ==> forall j :: 0 <= j < HashIndex(s) ==> r[j] == s[j]
    ensures '#' in s ==> forall j :: HashIndex(s) <= j < |r| ==> r[j] == s[j + 1]
  {
    var k := HashIndex(s);
    if k < |s| then s[..k] + s[k + 1..] else s
  }

  /** The inputs modelled: after the first '#' is removed, the first six
      characters are hex digits (characters after them are never read). */
  predicate IsColorInput(hex: string)
  {
    var h := StripHash(hex);
    |h| >= 6 && forall i :: 0 <= i < 6 ==> IsHexDigit(h[i])
  }

  datatype Rgb = Rgb(red: nat, green: nat, blue: nat)

  predicate IsByteTriple(c: Rgb)
  {
    c.red < 256 && c.green < 256 && c.blue < 256
  }

  /** `parseInt` of a two-digit field: `hi` is the 16s digit, `lo` the units digit. */
  function ParsePair(hi: char, lo: char): (v: nat)
    requires IsHexDigit(hi) && IsHexDigit(lo)
    ensures v < 256
    ensures v / 16 == DigitValue(hi) && v % 16 == DigitValue(lo)
  {
    16 * DigitValue(hi) + DigitValue(lo)
  }

  /** `hexToRgb`: fields at offsets 0, 2 and 4 of the stripped string. */
  function HexToRgb(hex: string): (c: Rgb)
    requires IsColorInput(hex)
    ensures IsByteTriple(c)
  {
    var h := StripHash(hex);
    Rgb(ParsePair(h[0], h[1]), ParsePair(h[2], h[3]), ParsePair(h[4], h[5]))
  }

  /** A component as two lower-case hex digits. */
  function Hex2(v: nat): (s: string)
    requires v < 256
    ensures |s| == 2 && IsHexDigit(s[0]) && IsHexDigit(s[1])
    ensures ParsePair(s[0], s[1]) == v
  {
    [LowerDigit(v / 16), LowerDigit(v % 16)]
  }

  /** Writes a colour as "#rrggbb". */
  function FormatHex(c: Rgb): (s: string)
    requires IsByteTriple(c)
    ensures |s| == 7 && s[0] == '#'
    ensures forall i :: 1 <= i < 7 ==> IsHexDigit(s[i])
  {
    "#" + Hex2(c.red) + Hex2(c.green) + Hex2(c.blue)
  }

  /** A hex digit in lower case (digits and lower-case letters are kept). */
  function Lower(c: char): (d: char)
    requires IsHexDigit(c)
    ensures IsHexDigit(d) && DigitValue(d) == DigitValue(c)
    ensures !('A' <= c <= 'F') ==> d == c
  {
    if 'A' <= c <= 'F' then (c as int - 'A' as int + 'a' as int) as char else c
  }

  function LowerAll(s: string): (r: string)
    requires forall i :: 0 <= i < |s| ==> IsHexDigit(s[i])
    ensures |r| == |s|
    ensures forall i :: 0 <= i < |s| ==> r[i] == Lower(s[i])
  {
    if s == [] then [] else [Lower(s[0])] + LowerAll(s[1..])
  }

  lemma StripLeadingHash(s: string)
    requires |s| > 0 && s[0] == '#'
    ensures StripHash(s) == s[1..]
  {
  }

  /** Two hex digits read as a pair and written back give the same digits in lower case. */
  lemma PairRoundTrip(hi: char, lo: char)
    requires IsHexDigit(hi) && IsHexDigit(lo)
    ensures Hex2(ParsePair(hi, lo)) == [Lower(hi), Lower(lo)]
  {
  }

  /** Formatting a colour and reading it back gives the colour. */
  lemma RgbRoundTrip(c: Rgb)
    requires IsByteTriple(c)
    ensures IsColorInput(FormatHex(c))
    ensures HexToRgb(FormatHex(c)) == c
  {
  }

  /** Reading a colour and formatting it back gives its six digits, in lower
      case, after a single '#'. */
  lemma {:induction false} DigitsRoundTrip(hex: string)
    requires IsColorInput(hex)
    ensures FormatHex(HexToRgb(hex)) == "#" + LowerAll(StripHash(hex)[..6])
  {
    var h := StripHash(hex);
    PairRoundTrip(h[0], h[1]);
    PairRoundTrip(h[2], h[3]);
    PairRoundTrip(h[4], h[5]);
    var l := LowerAll(h[..6]);
    assert l == [Lower(h[0]), Lower(h[1])] + [Lower(h[2]), Lower(h[3])] + [Lower(h[4]), Lower(h[5])];
  }

  /** A colour already written as '#' and six lower-case digits reads and formats back to itself. */
  lemma {:induction false} CanonicalRoundTrip(hex: string)
    requires |hex| == 7 && hex[0] == '#'
    requires forall i :: 1 <= i < 7 ==> IsHexDigit(hex[i]) && !('A' <= hex[i] <= 'F')
    ensures IsColorInput(hex)
    ensures FormatHex(HexToRgb(hex)) == hex
  {
    StripLeadingHash(hex);
    DigitsRoundTrip(hex);
    assert LowerAll(hex[1..][..6]) == hex[1..];
  }

  /** The fallback colours of the contrast check: "#ffffff" reads as white, "#111827" as rgb(17, 24, 39). */
  lemma DefaultColors()
    ensures IsColorInput("#ffffff") && HexToRgb("#ffffff") == Rgb(255, 255, 255)
    ensures IsColorInput("#111827") && HexToRgb("#111827") == Rgb(17, 24, 39)
  {
  }
}
