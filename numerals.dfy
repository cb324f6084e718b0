/** The digit strings that `std::to_chars(first, last, value, radix)` writes
    for an unsigned value, the zero padding that `_to_chars` in
    src/dataout.cpp adds in front of them, and reading such a string back. */
module Numerals {

  /** The radixes `std::to_chars` accepts. */
  predicate IsRadix(radix: nat) {
    2 <= radix <= 36
  }

  /** The lower-case digit character for `d`, as `std::to_chars` writes it. */
  function DigitChar(d: nat): char
    requires d < 36
  {
    if d < 10 then ('0' as int + d) as char else ('a' as int + d - 10) as char
  }

  /** The value of a digit character; 0 for a character that is not one. */
  function DigitValue(c: char): nat {
    if '0' <= c <= '9' then c as int - '0' as int
    else if 'a' <= c <= 'z' then c as int - 'a' as int + 10
    else 0
  }

  predicate IsDigit(c: char, radix: nat) {
    ('0' <= c <= '9' || 'a' <= c <= 'z') && DigitValue(c) < radix
  }

  /** Euclidean division of a numeral value by the radix. */
  lemma DivMod(v: nat, radix: nat)
    requires IsRadix(radix)
    ensures v % radix < radix && (v / radix) * radix + v % radix == v
    ensures v >= radix ==> 1 <= v / radix < v
  {
    var q, d := v / radix, v % radix;
    assert q * radix + d == v && 0 <= d < radix;
    if v >= radix {
      assert q * radix >= q * 2;
    }
  }

  /** The shortest radix-`radix` numeral of `v`: what `std::to_chars` writes
      when the destination is large enough. */
  function Digits(v: nat, radix: nat): (s: seq<char>)
    requires IsRadix(radix)
    ensures 1 <= |s|
    ensures forall i :: 0 <= i < |s| ==> IsDigit(s[i], radix)
    ensures v > 0 ==> s[0] != '0'
    decreases v
  {
    if v < radix then [DigitChar(v)]
    else DivMod(v, radix); Digits(v / radix, radix) + [DigitChar(v % radix)]
  }

  function Zeros(k: nat): (s: seq<char>)
    ensures |s| == k && forall i :: 0 <= i < k ==> s[i] == '0'
  {
    seq(k, _ => '0')
  }

  /** `s` right-aligned in a field of `width` characters, left-padded with
      the character '0'; a string already that long is left as it is. */
  function PadLeft(s: seq<char>, width: nat): seq<char> {
    if |s| < width then Zeros(width - |s|) + s else s
  }

  /** The zero-padded numeral of `v` in a field of `width` characters. */
  function Padded(v: nat, radix: nat, width: nat): seq<char>
    requires IsRadix(radix)
  {
    PadLeft(Digits(v, radix), width)
  }

  /** The value of a numeral, most significant digit first. */
  function Parse(s: seq<char>, radix: nat): nat {
    if |s| == 0 then 0 else Parse(s[..|s| - 1], radix) * radix + DigitValue(s[|s| - 1])
  }

  function Pow(base: nat, e: nat): nat {
    if e == 0 then 1 else base * Pow(base, e - 1)
  }

  /** Reading the numeral of `v` back gives `v`. */
  lemma {:induction false} ParseDigits(v: nat, radix: nat)
    requires IsRadix(radix)
    ensures Parse(Digits(v, radix), radix) == v
    decreases v
  {
    if v >= radix {
      var q, d := v / radix, v % radix;
      DivMod(v, radix);
      ParseDigits(q, radix);
      var s := Digits(q, radix) + [DigitChar(d)];
      assert s[..|s| - 1] == Digits(q, radix);
      assert DigitValue(DigitChar(d)) == d;
      assert q * radix + d == v;
    }
  }

  /** Leading zero characters do not change the value of a numeral. */
  lemma {:induction false} ParseZeros(k: nat, s: seq<char>, radix: nat)
    ensures Parse(Zeros(k) + s, radix) == Parse(s, radix)
    decreases |s|, k
  {
    if |s| == 0 {
      assert Zeros(k) + s == Zeros(k);
      if k > 0 {
        assert Zeros(k)[..k - 1] == Zeros(k - 1);
        ParseZeros(k - 1, [], radix);
        assert Zeros(k - 1) + [] == Zeros(k - 1);
      }
    } else {
      var t := Zeros(k) + s;
      assert t[..|t| - 1] == Zeros(k) + s[..|s| - 1];
      ParseZeros(k, s[..|s| - 1], radix);
    }
  }

  /** Powers add their exponents. */
  lemma {:induction false} PowAdd(base: nat, m: nat, n: nat)
    ensures Pow(base, m + n) == Pow(base, m) * Pow(base, n)
    decreases m
  {
    if m > 0 {
      PowAdd(base, m - 1, n);
      assert Pow(base, m + n) == base * Pow(base, m - 1 + n);
    }
  }

  lemma MulMono(x: nat, y: nat, k: nat)
    requires x <= y
    ensures x * k <= y * k
  {
  }

  lemma DivBelowPow(v: nat, radix: nat, e: nat)
    requires IsRadix(radix) && v < radix * Pow(radix, e)
    ensures v / radix < Pow(radix, e)
  {
    var q := v / radix;
    DivMod(v, radix);
    assert q * radix <= v;
    if q >= Pow(radix, e) {
      MulMono(Pow(radix, e), q, radix);
    }
  }

  /** A value below `radix^width` needs at most `width` digits. */
  lemma {:induction false} DigitsFit(v: nat, radix: nat, width: nat)
    requires IsRadix(radix) && 1 <= width && v < Pow(radix, width)
    ensures |Digits(v, radix)| <= width
    decreases width
  {
    if v >= radix {
      DivBelowPow(v, radix, width - 1);
      DivMod(v, radix);
      if width > 1 {
        DigitsFit(v / radix, radix, width - 1);
      }
    }
  }

  /** A numeral that fits its field is exactly `width` radix digits, right
      aligned behind '0' characters, and reads back as `v`. */
  lemma PaddedRoundTrip(v: nat, radix: nat, width: nat)
    requires IsRadix(radix) && |Digits(v, radix)| <= width
    ensures |Padded(v, radix, width)| == width
    ensures forall i :: 0 <= i < width ==> IsDigit(Padded(v, radix, width)[i], radix)
    ensures Padded(v, radix, width)[width - |Digits(v, radix)|..] == Digits(v, radix)
    ensures Parse(Padded(v, radix, width), radix) == v
  {
    var d := Digits(v, radix);
    ParseDigits(v, radix);
    if |d| < width {
      ParseZeros(width - |d|, d, radix);
    }
  }
}
