/**
 * The parts of Swift's `String` library that the TOTP engine relies on, over strings of
 * characters: `leftPad` (the project's own extension), `String(_:radix:)`,
 * `UInt8(_:radix:)`, `uppercased()`, `replacingOccurrences(of: " ", with: "")` and
 * `String(format: "%0Nd")`.
 */
module Text {
  import opened Numbers
  import opened Wrappers

  /** True when `c` is one of the lowest `radix` decimal digit characters. */
  predicate IsDigit(c: char, radix: nat) {
    '0' <= c && (c as int) < ('0' as int) + radix
  }

  predicate AllDigits(s: string, radix: nat) {
    forall i | 0 <= i < |s| :: IsDigit(s[i], radix)
  }

  function DigitChar(d: nat): (c: char)
    requires d < 10
    ensures IsDigit(c, d + 1) && DigitValue(c) == d
  {
    (('0' as int) + d) as char
  }

  function DigitValue(c: char): nat
    requires '0' <= c
  {
    (c as int) - ('0' as int)
  }

  /** The value of a digit string, most significant digit first. */
  function RadixValue(s: string, radix: nat): nat
    requires AllDigits(s, radix)
  {
    if s == [] then 0 else RadixValue(s[..|s| - 1], radix) * radix + DigitValue(s[|s| - 1])
  }

  /** `n` digits in radix `radix` denote a value below `radix^n`. */
  lemma {:induction false} RadixValueBound(s: string, radix: nat)
    requires AllDigits(s, radix)
    ensures RadixValue(s, radix) < Pow(radix, |s|)
  {
    if s != [] {
      var init := s[..|s| - 1];
      RadixValueBound(init, radix);
      var v, d, p := RadixValue(init, radix), DigitValue(s[|s| - 1]), Pow(radix, |init|);
      assert IsDigit(s[|s| - 1], radix);
      assert d < radix;
      MulLeft(v, p - 1, radix);
      assert (p - 1) * radix == p * radix - radix;
      assert RadixValue(s, radix) == v * radix + d;
      assert Pow(radix, |s|) == radix * p;
    }
  }

  /** `String(v, radix: radix)`: digits most significant first, without leading zeros. */
  function InRadix(v: nat, radix: nat): string
    requires 2 <= radix <= 10
    decreases v
  {
    if v < radix then [DigitChar(v)] else InRadix(v / radix, radix) + [DigitChar(v % radix)]
  }

  /** The rendering is a non-empty digit string denoting `v`, with a leading zero only for zero. */
  lemma {:induction false} InRadixDigits(v: nat, radix: nat)
    requires 2 <= radix <= 10
    ensures var r := InRadix(v, radix);
      |r| >= 1 && AllDigits(r, radix) && RadixValue(r, radix) == v
      && (r[0] == '0' <==> v == 0) && (v == 0 ==> r == "0")
    decreases v
  {
    if v >= radix {
      var q, m := v / radix, v % radix;
      SplitLast(v, radix);
      InRadixDigits(q, radix);
      var high := InRadix(q, radix);
      var r := high + [DigitChar(m)];
      assert r[..|r| - 1] == high;
      assert RadixValue(r, radix) == q * radix + m;
    }
  }

  lemma SplitLast(v: nat, radix: nat)
    requires 2 <= radix <= v
    ensures v == (v / radix) * radix + v % radix
    ensures 1 <= v / radix < v && v % radix < radix
  {}

  /** A value below `radix^n` has at most `n` digits. */
  lemma {:induction false} InRadixLength(v: nat, radix: nat, n: nat)
    requires 2 <= radix <= 10 && 1 <= n && v < Pow(radix, n)
    ensures |InRadix(v, radix)| <= n
    decreases v
  {
    if v >= radix {
      var p := Pow(radix, n - 1);
      assert n >= 2;
      assert Pow(radix, n) == radix * p;
      DivBelow(v, radix, p);
      SplitLast(v, radix);
      InRadixLength(v / radix, radix, n - 1);
    }
  }

  lemma DivBelow(v: nat, d: nat, p: nat)
    requires d > 0 && v < d * p
    ensures v / d < p
  {
    var q := v / d;
    assert d * q <= v;
    if q >= p {
      MulLeft(p, q, d);
    }
  }

  /** The extension `String.leftPad(to:with:)`. */
  function LeftPad(s: string, length: int, pad: char): string {
    if |s| >= length then s else seq(length - |s|, _ => pad) + s
  }

  /** The padded string is `s` preceded by just enough `pad` characters to reach `length`. */
  lemma LeftPadShape(s: string, length: int, pad: char)
    ensures var r := LeftPad(s, length, pad);
      |r| == (if |s| >= length then |s| else length)
      && r[|r| - |s|..] == s
      && forall i | 0 <= i < |r| - |s| :: r[i] == pad
  {
  }

  /** Leading zeros do not change the value of a digit string. */
  lemma {:induction false} LeadingZeros(z: string, s: string, radix: nat)
    requires radix >= 1
    requires forall i | 0 <= i < |z| :: z[i] == '0'
    requires AllDigits(s, radix)
    ensures AllDigits(z + s, radix)
    ensures RadixValue(z + s, radix) == RadixValue(s, radix)
    decreases |z| + |s|
  {
    assert AllDigits(z + s, radix);
    if s == [] {
      assert z + s == z;
      if z != [] {
        LeadingZeros(z[..|z| - 1], [], radix);
        assert z[..|z| - 1] + [] == z[..|z| - 1];
      }
    } else {
      var init := s[..|s| - 1];
      assert (z + s)[..|z + s| - 1] == z + init;
      LeadingZeros(z, init, radix);
    }
  }

  /** The padded rendering keeps the digits and the value of the original. */
  lemma PadKeepsValue(s: string, length: int, radix: nat)
    requires radix >= 1 && AllDigits(s, radix)
    ensures AllDigits(LeftPad(s, length, '0'), radix)
    ensures RadixValue(LeftPad(s, length, '0'), radix) == RadixValue(s, radix)
  {
    var r := LeftPad(s, length, '0');
    LeftPadShape(s, length, '0');
    var z := r[..|r| - |s|];
    assert r == z + s;
    LeadingZeros(z, s, radix);
  }

  /** `UInt8(s, radix: 2)` on unsigned strings: a non-empty binary string whose value fits in a byte. */
  function ParseByte(s: string): Option<byte> {
    if s != [] && AllDigits(s, 2) && RadixValue(s, 2) < 256 then Some(RadixValue(s, 2) as byte)
    else None
  }

  /** Parsing inverts rendering: every byte, written in binary and zero-padded to 8, parses back to itself. */
  lemma ParseRendered(b: byte)
    ensures ParseByte(LeftPad(InRadix(b as nat, 2), 8, '0')) == Some(b)
  {
    var s := InRadix(b as nat, 2);
    InRadixDigits(b as nat, 2);
    LeftPadShape(s, 8, '0');
    PadKeepsValue(s, 8, 2);
  }

  /** `String(format: "%0\(width)d", v)`: decimal, zero-padded on the left to at least `width`. */
  function ZeroPadded(v: nat, width: nat): string {
    LeftPad(InRadix(v, 10), width, '0')
  }

  /** The rendering denotes `v`, is at least `width` long, and is exactly `width` long when `v` fits. */
  lemma ZeroPaddedForm(v: nat, width: nat)
    ensures var r := ZeroPadded(v, width);
      AllDigits(r, 10) && RadixValue(r, 10) == v && |r| >= width && |r| >= 1
      && (width >= 1 && v < Pow(10, width) ==> |r| == width)
  {
    var s := InRadix(v, 10);
    InRadixDigits(v, 10);
    LeftPadShape(s, width, '0');
    PadKeepsValue(s, width, 10);
    if width >= 1 && v < Pow(10, width) {
      InRadixLength(v, 10, width);
    }
  }

  /** ASCII case mapping of one character, as `uppercased()` does for ASCII letters. */
  function UpperChar(c: char): char {
    if 'a' <= c <= 'z' then ((c as int) - 32) as char else c
  }

  /** `uppercased()`, restricted to ASCII letters. */
  function Uppercased(s: string): string {
    seq(|s|, i requires 0 <= i < |s| => UpperChar(s[i]))
  }

  /**
   * Uppercasing keeps the length, leaves no lower-case letter, turns each lower-case letter into
   * its own capital (the one at the same place in the alphabet), changes no other character,
   * and so is idempotent.
   */
  lemma UppercasedForm(s: string)
    ensures var r := Uppercased(s);
      |r| == |s|
      && (forall i | 0 <= i < |r| :: !('a' <= r[i] <= 'z'))
      && (forall i | 0 <= i < |s| :: 'a' <= s[i] <= 'z' ==> 'A' <= r[i] <= 'Z')
      && (forall i | 0 <= i < |s| :: 'a' <= s[i] <= 'z' ==> r[i] as int - 'A' as int == s[i] as int - 'a' as int)
      && (forall i | 0 <= i < |s| :: !('a' <= s[i] <= 'z') ==> r[i] == s[i])
      && Uppercased(r) == r
  {
  }

  /** `replacingOccurrences(of: " ", with: "")`. */
  function RemovingSpaces(s: string): string {
    if s == [] then []
    else RemovingSpaces(s[..|s| - 1]) + (if s[|s| - 1] == ' ' then [] else [s[|s| - 1]])
  }

  /** Exactly the characters other than a space survive, and nothing is added. */
  lemma {:induction false} RemovingSpacesKeeps(s: string)
    ensures forall c :: c in RemovingSpaces(s) <==> c in s && c != ' '
    ensures |RemovingSpaces(s)| <= |s|
  {
    if s != [] {
      var init := s[..|s| - 1];
      RemovingSpacesKeeps(init);
      assert s == init + [s[|s| - 1]];
    }
  }

  lemma {:induction false} RemovingSpacesAppend(a: string, b: string)
    ensures RemovingSpaces(a + b) == RemovingSpaces(a) + RemovingSpaces(b)
    decreases |b|
  {
    if b == [] {
      assert a + b == a;
    } else {
      var init := b[..|b| - 1];
      assert (a + b)[..|a + b| - 1] == a + init;
      RemovingSpacesAppend(a, init);
    }
  }
}
