/**
 * The string operations the screens apply to display text: Kotlin's
 * `lowercase()`, `replaceFirstChar { it.uppercase() }` and `Int.toString()`.
 * Case mapping is modelled on the ASCII letters, which is all that enum names
 * and mood keys contain.
 */
module Text {

  predicate IsUpperAscii(c: char) {
    'A' <= c <= 'Z'
  }

  predicate IsLowerAscii(c: char) {
    'a' <= c <= 'z'
  }

  function ToLowerChar(c: char): (r: char)
    ensures !IsUpperAscii(r)
    ensures IsUpperAscii(c) || r == c
  {
    if IsUpperAscii(c) then (c as int + 32) as char else c
  }

  function ToUpperChar(c: char): (r: char)
    ensures !IsLowerAscii(r)
    ensures IsLowerAscii(c) || r == c
  {
    if IsLowerAscii(c) then (c as int - 32) as char else c
  }

  /** `lowercase()`: every character mapped to lower case, length unchanged. */
  function Lowercase(s: string): (r: string)
    ensures |r| == |s|
    ensures forall i | 0 <= i < |s| :: r[i] == ToLowerChar(s[i])
  {
    if s == [] then [] else [ToLowerChar(s[0])] + Lowercase(s[1..])
  }

  /** `replaceFirstChar { it.uppercase() }`: only the first character changes. */
  function CapitalizeFirst(s: string): (r: string)
    ensures |r| == |s|
    ensures s != [] ==> r[0] == ToUpperChar(s[0]) && r[1..] == s[1..]
  {
    if s == [] then [] else [ToUpperChar(s[0])] + s[1..]
  }

  /**
   * The display form of an enum-style key: lower-cased, then its first
   * character upper-cased ("PEACEFUL" becomes "Peaceful").
   */
  function DisplayName(key: string): (r: string)
    ensures |r| == |key|
    ensures key != [] ==> r[0] == ToUpperChar(ToLowerChar(key[0]))
    ensures forall i | 1 <= i < |key| :: r[i] == ToLowerChar(key[i]) && !IsUpperAscii(r[i])
  {
    CapitalizeFirst(Lowercase(key))
  }

  /** Different all-capital keys have different display names. */
  lemma DisplayNameInjective(a: string, b: string)
    requires forall i | 0 <= i < |a| :: IsUpperAscii(a[i])
    requires forall i | 0 <= i < |b| :: IsUpperAscii(b[i])
    requires DisplayName(a) == DisplayName(b)
    ensures a == b
  {
    assert |a| == |b|;
    forall i | 0 <= i < |a| ensures a[i] == b[i] {
      if i == 0 {
        assert ToUpperChar(ToLowerChar(a[0])) == a[0];
        assert ToUpperChar(ToLowerChar(b[0])) == b[0];
      } else {
        assert ToLowerChar(a[i]) == ToLowerChar(b[i]);
      }
    }
  }

  function DigitChar(d: int): char
    requires 0 <= d < 10
  {
    ('0' as int + d) as char
  }

  predicate IsDigit(c: char) {
    '0' <= c <= '9'
  }

  /** `Int.toString()` for a non-negative number: its decimal digits, no leading zero. */
  function NatToString(n: nat): (s: string)
    ensures |s| >= 1
    ensures forall i | 0 <= i < |s| :: IsDigit(s[i])
    ensures s[0] == '0' ==> n == 0
  {
    if n < 10 then [DigitChar(n)] else NatToString(n / 10) + [DigitChar(n % 10)]
  }

  /** The number a string of decimal digits denotes. */
  function DecimalValue(s: string): nat
    requires forall i | 0 <= i < |s| :: IsDigit(s[i])
  {
    if s == [] then 0
    else
      assert IsDigit(s[|s| - 1]);
      10 * DecimalValue(s[..|s| - 1]) + (s[|s| - 1] as int - '0' as int)
  }

  /** Printing a count and reading it back gives the same count. */
  lemma {:induction false} NatToStringRoundTrip(n: nat)
    ensures DecimalValue(NatToString(n)) == n
  {
    if n >= 10 {
      NatToStringRoundTrip(n / 10);
      var s := NatToString(n);
      assert s[..|s| - 1] == NatToString(n / 10);
    }
  }

  /** Different counts print differently. */
  lemma NatToStringInjective(m: nat, n: nat)
    requires NatToString(m) == NatToString(n)
    ensures m == n
  {
    NatToStringRoundTrip(m);
    NatToStringRoundTrip(n);
  }

  /** `Int.toString()`: a minus sign for negative numbers, then the digits. */
  function IntToString(n: int): (s: string)
    ensures |s| >= 1 && ' ' !in s
    ensures n >= 0 ==> s == NatToString(n)
    ensures n < 0 ==> s == "-" + NatToString(-n)
  {
    if n < 0 then "-" + NatToString(-n) else NatToString(n)
  }

  /** Different numbers print differently. */
  lemma IntToStringInjective(m: int, n: int)
    requires IntToString(m) == IntToString(n)
    ensures m == n
  {
    var s := IntToString(m);
    if m < 0 && n < 0 {
      assert s[1..] == NatToString(-m) == NatToString(-n);
      NatToStringInjective(-m, -n);
    } else if m >= 0 && n >= 0 {
      NatToStringInjective(m, n);
    }
  }

  /**
   * A string split at its first space: when neither front part contains a
   * space, equal joins have equal parts.
   */
  lemma SplitAtFirstSpace(a: string, b: string, c: string, d: string)
    requires ' ' !in a && ' ' !in c
    requires a + " " + b == c + " " + d
    ensures a == c && b == d
  {
    var s := a + " " + b;
    assert s[|a|] == ' ' && s[|c|] == ' ';
    assert a == s[..|a|] == c;
    assert b == s[|a| + 1..] == d;
  }

  /** The UTF-8 encoding of a character in U+0800..U+FFFF, which takes three bytes. */
  function Utf8Encode3(c: char): (bytes: seq<int>)
    requires 0x800 <= c as int <= 0xFFFF
    ensures |bytes| == 3 && 0xE0 <= bytes[0] < 0xF0
    ensures 0x80 <= bytes[1] < 0xC0 && 0x80 <= bytes[2] < 0xC0
  {
    var n := c as int;
    [0xE0 + n / 0x1000, 0x80 + (n / 0x40) % 0x40, 0x80 + n % 0x40]
  }

  /** The character Windows-1252 assigns to a byte (U+FFFD for its five unassigned bytes). */
  function Cp1252Char(b: int): char
    requires 0 <= b < 0x100
  {
    if b < 0x80 || 0xA0 <= b then b as char
    else
      var table := [
        '\U{20AC}', '\U{FFFD}', '\U{201A}', '\U{0192}', '\U{201E}', '\U{2026}', '\U{2020}', '\U{2021}',
        '\U{02C6}', '\U{2030}', '\U{0160}', '\U{2039}', '\U{0152}', '\U{FFFD}', '\U{017D}', '\U{FFFD}',
        '\U{FFFD}', '\U{2018}', '\U{2019}', '\U{201C}', '\U{201D}', '\U{2022}', '\U{2013}', '\U{2014}',
        '\U{02DC}', '\U{2122}', '\U{0161}', '\U{203A}', '\U{0153}', '\U{FFFD}', '\U{017E}', '\U{0178}'];
      table[b - 0x80]
  }

  /** Reading bytes as Windows-1252 text: one character per byte. */
  function Cp1252Decode(bytes: seq<int>): (s: string)
    requires forall i | 0 <= i < |bytes| :: 0 <= bytes[i] < 0x100
    ensures |s| == |bytes|
  {
    if bytes == [] then [] else [Cp1252Char(bytes[0])] + Cp1252Decode(bytes[1..])
  }
}
