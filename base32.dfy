/**
 * Base32 decoding with the alphabet of section 6 of RFC 4648, as `base32Decode` does it:
 * `=` is skipped wherever it stands, any other character outside the alphabet fails the
 * decode, every symbol contributes its 5-bit index most significant bit first, and the bit
 * stream is cut into bytes, dropping a trailing group of fewer than 8 bits.
 */
module Base32 {
  import opened Numbers
  import opened Wrappers
  import opened Text

  const Alphabet: string := "ABCDEFGHIJKLMNOPQRSTUVWXYZ234567"

  /** Symbol `k` of the alphabet: the letters `A-Z`, then the digits `2-7`. */
  function SymbolAt(k: nat): char
    requires k < 32
  {
    if k < 26 then (('A' as int) + k) as char else (('2' as int) + k - 26) as char
  }

  lemma AlphabetAt(k: nat)
    requires k < 32
    ensures Alphabet[k] == SymbolAt(k)
  {
    assert forall j | 0 <= j < 32 :: Alphabet[j] == SymbolAt(j);
  }

  /** True for the letters `A-Z` and the digits `2-7`. */
  predicate IsSymbol(c: char) {
    'A' <= c <= 'Z' || '2' <= c <= '7'
  }

  /** The alphabet is exactly the letters `A-Z` and the digits `2-7`. */
  lemma SymbolRanges(c: char)
    ensures c in Alphabet <==> IsSymbol(c)
  {
    if IsSymbol(c) {
      var k := if 'A' <= c <= 'Z' then (c as int) - ('A' as int) else (c as int) - ('2' as int) + 26;
      AlphabetAt(k);
      assert Alphabet[k] == c;
    }
    if c in Alphabet {
      var k :| 0 <= k < 32 && Alphabet[k] == c;
      AlphabetAt(k);
    }
  }

  /** `firstIndex(of:)` on a string, measured as a distance from the start. */
  function FirstIndex(s: string, c: char): (r: Option<nat>)
    ensures r.None? <==> c !in s
    ensures r.Some? ==> r.value < |s| && s[r.value] == c && c !in s[..r.value]
  {
    if s == [] then None
    else if s[0] == c then Some(0)
    else
      match FirstIndex(s[1..], c)
      case None => None
      case Some(k) =>
        assert s[..k + 1] == [s[0]] + s[1..][..k];
        Some(k + 1)
  }

  /** The 5-bit value of an alphabet symbol: its position in the alphabet. */
  function Value(c: char): (v: nat)
    requires IsSymbol(c)
    ensures v < 32
  {
    if 'A' <= c <= 'Z' then (c as int) - ('A' as int) else (c as int) - ('2' as int) + 26
  }

  /** The search `base32Decode` makes in the alphabet finds the symbol's value. */
  lemma ValueIsIndex(c: char)
    requires IsSymbol(c)
    ensures Alphabet[Value(c)] == c
    ensures FirstIndex(Alphabet, c) == Some(Value(c))
  {
    AlphabetAt(Value(c));
    assert Alphabet[Value(c)] == c;
    var r := FirstIndex(Alphabet, c);
    var k := r.value;
    AlphabetAt(k);
    SymbolAtInjective(k, Value(c));
  }

  lemma SymbolAtInjective(j: nat, k: nat)
    requires j < 32 && k < 32 && SymbolAt(j) == SymbolAt(k)
    ensures j == k
  {
  }

  /** Value and symbol are inverse. */
  lemma SymbolValue(k: nat)
    requires k < 32
    ensures IsSymbol(Alphabet[k]) && Value(Alphabet[k]) == k
  {
    AlphabetAt(k);
  }

  /** True when every character is `=` or an alphabet symbol. */
  predicate Acceptable(s: string) {
    forall i | 0 <= i < |s| :: s[i] == '=' || IsSymbol(s[i])
  }

  /** The 5-bit values of the symbols of an acceptable input, in order, skipping every `=`. */
  function Values(s: string): (r: seq<nat>)
    requires Acceptable(s)
    ensures Quintets(r)
  {
    if s == [] then []
    else
      var init := s[..|s| - 1];
      assert Acceptable(init) by {
        assert forall i | 0 <= i < |init| :: init[i] == s[i];
      }
      Values(init) + (if s[|s| - 1] == '=' then [] else [Value(s[|s| - 1])])
  }

  /** The input with every `=` removed. */
  function Unpadded(s: string): string {
    if s == [] then []
    else Unpadded(s[..|s| - 1]) + (if s[|s| - 1] == '=' then [] else [s[|s| - 1]])
  }

  predicate Quintets(vals: seq<nat>) {
    forall i | 0 <= i < |vals| :: vals[i] < 32
  }

  /** The five bits of a value below 32, most significant first. */
  function FiveBits(v: nat): (r: seq<nat>)
    ensures |r| == 5 && forall k | 0 <= k < 5 :: r[k] < 2
  {
    [v / 16 % 2, v / 8 % 2, v / 4 % 2, v / 2 % 2, v % 2]
  }

  /** Bit `p` of the concatenated 5-bit, most-significant-first forms of `vals`. */
  function BitAt(vals: seq<nat>, p: nat): (b: nat)
    requires p < 5 * |vals|
    ensures b < 2
  {
    FiveBits(vals[p / 5])[p % 5]
  }

  /** The `n` bits from position `from` on, read most significant first. */
  function BitsValue(vals: seq<nat>, from: nat, n: nat): (r: nat)
    requires from + n <= 5 * |vals|
    ensures r < Pow(2, n)
  {
    if n == 0 then 0 else 2 * BitsValue(vals, from, n - 1) + BitAt(vals, from + n - 1)
  }

  /** Byte `j` of the bit stream: its bits `8j .. 8j+7`. */
  function ByteAt(vals: seq<nat>, j: nat): (b: byte)
    requires 8 * j + 8 <= 5 * |vals|
  {
    assert Pow(2, 8) == 256;
    BitsValue(vals, 8 * j, 8) as byte
  }

  /** The first `n` bytes of the bit stream. */
  function StreamBytes(vals: seq<nat>, n: nat): (r: seq<byte>)
    requires 8 * n <= 5 * |vals|
    ensures |r| == n
  {
    if n == 0 then [] else StreamBytes(vals, n - 1) + [ByteAt(vals, n - 1)]
  }

  lemma {:induction false} StreamBytesAt(vals: seq<nat>, n: nat, j: nat)
    requires 8 * n <= 5 * |vals| && j < n
    ensures StreamBytes(vals, n)[j] == ByteAt(vals, j)
  {
    if j < n - 1 {
      StreamBytesAt(vals, n - 1, j);
    }
  }

  /** What decoding means: `None` for an unacceptable input, else every complete byte of the bit stream. */
  function Decoded(input: string): Option<seq<byte>> {
    if Acceptable(input) then
      var vals := Values(input);
      Some(StreamBytes(vals, 5 * |vals| / 8))
    else None
  }

  /** `String(value, radix: 2).leftPad(to: 5, with: "0")`. */
  function Chunk(v: nat): string {
    LeftPad(InRadix(v, 2), 5, '0')
  }

  /** The `bits` string that the first loop of `base32Decode` builds from `vals`. */
  function BitString(vals: seq<nat>): (r: string)
    requires Quintets(vals)
    ensures |r| == 5 * |vals|
  {
    if vals == [] then ""
    else
      ChunkBits(vals[|vals| - 1]);
      BitString(vals[..|vals| - 1]) + Chunk(vals[|vals| - 1])
  }

  /** A 5-bit value renders as its five bits, most significant first. */
  lemma ChunkBits(v: nat)
    requires v < 32
    ensures |Chunk(v)| == 5
    ensures forall k | 0 <= k < 5 :: Chunk(v)[k] == DigitChar(FiveBits(v)[k])
  {
    ChunkDigits(v);
    var s := Chunk(v);
    FiveDigits(s);
    var d0, d1, d2, d3, d4 := DigitValue(s[0]), DigitValue(s[1]), DigitValue(s[2]), DigitValue(s[3]), DigitValue(s[4]);
    assert IsDigit(s[0], 2) && IsDigit(s[1], 2) && IsDigit(s[2], 2) && IsDigit(s[3], 2) && IsDigit(s[4], 2);
    BitsOfFive(d0, d1, d2, d3, d4);
    assert v == 16 * d0 + 8 * d1 + 4 * d2 + 2 * d3 + d4;
    assert FiveBits(v) == [d0, d1, d2, d3, d4];
    forall k | 0 <= k < 5
      ensures s[k] == DigitChar(FiveBits(v)[k])
    {
      assert s[k] == DigitChar(DigitValue(s[k]));
    }
  }

  /** A chunk is five binary digits denoting its value. */
  lemma ChunkDigits(v: nat)
    requires v < 32
    ensures |Chunk(v)| == 5 && AllDigits(Chunk(v), 2) && RadixValue(Chunk(v), 2) == v
  {
    var b := InRadix(v, 2);
    InRadixDigits(v, 2);
    assert Pow(2, 5) == 32;
    InRadixLength(v, 2, 5);
    LeftPadShape(b, 5, '0');
    PadKeepsValue(b, 5, 2);
  }

  lemma FiveDigits(s: string)
    requires |s| == 5 && AllDigits(s, 2)
    ensures RadixValue(s, 2)
      == 16 * DigitValue(s[0]) + 8 * DigitValue(s[1]) + 4 * DigitValue(s[2]) + 2 * DigitValue(s[3]) + DigitValue(s[4])
  {
    var s4 := s[..4];
    var s3 := s4[..3];
    var s2 := s3[..2];
    var s1 := s2[..1];
    assert s1[..0] == [];
    assert RadixValue(s1, 2) == DigitValue(s[0]);
    assert RadixValue(s2, 2) == RadixValue(s1, 2) * 2 + DigitValue(s[1]);
    assert RadixValue(s3, 2) == RadixValue(s2, 2) * 2 + DigitValue(s[2]);
    assert RadixValue(s4, 2) == RadixValue(s3, 2) * 2 + DigitValue(s[3]);
    assert RadixValue(s, 2) == RadixValue(s4, 2) * 2 + DigitValue(s[4]);
  }

  lemma BitsOfFive(d0: nat, d1: nat, d2: nat, d3: nat, d4: nat)
    requires d0 < 2 && d1 < 2 && d2 < 2 && d3 < 2 && d4 < 2
    ensures var v := 16 * d0 + 8 * d1 + 4 * d2 + 2 * d3 + d4;
      v / 16 % 2 == d0 && v / 8 % 2 == d1 && v / 4 % 2 == d2 && v / 2 % 2 == d3 && v % 2 == d4
  {}

  /** Character `p` of the bit string is bit `p` of the stream. */
  lemma {:induction false} BitStringAt(vals: seq<nat>, p: nat)
    requires Quintets(vals) && p < 5 * |vals|
    ensures BitString(vals)[p] == DigitChar(BitAt(vals, p))
  {
    var n := |vals| - 1;
    var init := vals[..n];
    ChunkBits(vals[n]);
    assert BitString(vals) == BitString(init) + Chunk(vals[n]);
    if p < 5 * n {
      BitStringAt(init, p);
      assert init[p / 5] == vals[p / 5];
    } else {
      var k := p - 5 * n;
      assert p / 5 == n && p % 5 == k;
      assert BitString(vals)[p] == Chunk(vals[n])[k];
    }
  }

  /** A window of the bit string, read as binary, is the value of those bits. */
  lemma {:induction false} WindowValue(s: string, vals: seq<nat>, from: nat, n: nat)
    requires |s| == n && from + n <= 5 * |vals|
    requires forall k | 0 <= k < n :: s[k] == DigitChar(BitAt(vals, from + k))
    ensures AllDigits(s, 2) && RadixValue(s, 2) == BitsValue(vals, from, n)
  {
    if n > 0 {
      WindowValue(s[..n - 1], vals, from, n - 1);
    }
  }

  lemma AcceptableAppend(a: string, b: string)
    ensures Acceptable(a + b) <==> Acceptable(a) && Acceptable(b)
  {
    assert forall i | 0 <= i < |a| :: (a + b)[i] == a[i];
    assert forall i | 0 <= i < |b| :: (a + b)[|a| + i] == b[i];
  }

  lemma {:induction false} ValuesAppend(a: string, b: string)
    requires Acceptable(a) && Acceptable(b)
    ensures Acceptable(a + b) && Values(a + b) == Values(a) + Values(b)
    decreases |b|
  {
    AcceptableAppend(a, b);
    if b == [] {
      assert a + b == a;
    } else {
      var init := b[..|b| - 1];
      AcceptableAppend(init, [b[|b| - 1]]);
      assert b == init + [b[|b| - 1]];
      assert (a + b)[..|a + b| - 1] == a + init;
      ValuesAppend(a, init);
    }
  }

  /** Decoding fails exactly when some character is neither `=` nor an alphabet symbol. */
  lemma DecodeFails(input: string)
    ensures Decoded(input).None? <==> exists i | 0 <= i < |input| :: input[i] != '=' && input[i] !in Alphabet
  {
    forall i | 0 <= i < |input|
      ensures input[i] in Alphabet <==> IsSymbol(input[i])
    {
      SymbolRanges(input[i]);
    }
  }

  /** Every `=` is skipped: inserting one anywhere never changes the result of decoding. */
  lemma PaddingIgnored(a: string, b: string)
    ensures Decoded(a + "=" + b) == Decoded(a + b)
  {
    PadValues(a, b);
    SameValues(a + "=" + b, a + b);
  }

  lemma PadValues(a: string, b: string)
    ensures Acceptable(a + "=" + b) <==> Acceptable(a + b)
    ensures Acceptable(a + b) ==> Values(a + "=" + b) == Values(a + b)
  {
    PadAlone();
    AcceptableAppend(a + "=", b);
    AcceptableAppend(a, "=");
    AcceptableAppend(a, b);
    if Acceptable(a + b) {
      PadSkipped(a, b);
    }
  }

  lemma PadSkipped(a: string, b: string)
    requires Acceptable(a) && Acceptable(b)
    ensures Values(a + "=" + b) == Values(a + b)
  {
    var x := a + "=";
    PadAlone();
    ValuesAppend(a, "=");
    assert Values(x) == Values(a);
    ValuesAppend(x, b);
    ValuesAppend(a, b);
  }

  lemma PadAlone()
    ensures Acceptable("=") && Values("=") == []
  {
    assert "="[..0] == [];
  }

  /** Decoding depends on the input only through its symbol values. */
  lemma SameValues(s: string, t: string)
    requires Acceptable(s) <==> Acceptable(t)
    requires Acceptable(s) ==> Values(s) == Values(t)
    ensures Decoded(s) == Decoded(t)
  {
  }

  /** The symbols of the padded and the unpadded input agree. */
  lemma {:induction false} UnpaddedValues(s: string)
    ensures Acceptable(Unpadded(s)) <==> Acceptable(s)
    ensures Acceptable(s) ==> Values(Unpadded(s)) == Values(s)
  {
    if s != [] {
      var init, last := s[..|s| - 1], s[|s| - 1];
      var tail := if last == '=' then [] else [last];
      UnpaddedValues(init);
      assert s == init + [last];
      AcceptableAppend(init, [last]);
      AcceptableAppend(Unpadded(init), tail);
      if Acceptable(s) {
        ValuesAppend(Unpadded(init), tail);
        assert tail == [] ==> Unpadded(init) + tail == Unpadded(init);
      }
    }
  }

  /** Removing all padding first changes nothing. */
  lemma PaddingRemoved(s: string)
    ensures Decoded(Unpadded(s)) == Decoded(s)
  {
    UnpaddedValues(s);
    SameValues(Unpadded(s), s);
  }

  lemma {:induction false} ValuesLength(s: string)
    requires Acceptable(s)
    ensures |Values(s)| == |Unpadded(s)|
  {
    if s != [] {
      var init := s[..|s| - 1];
      AcceptableAppend(init, [s[|s| - 1]]);
      assert s == init + [s[|s| - 1]];
      ValuesLength(init);
    }
  }

  /** Every symbol gives five bits, and only whole bytes are kept. */
  lemma DecodedLength(input: string)
    requires Decoded(input).Some?
    ensures |Decoded(input).value| == 5 * |Unpadded(input)| / 8
  {
    ValuesLength(input);
  }

  /** One step of the first loop: the prefix grows by one character. */
  lemma Step(input: string, i: nat)
    requires i < |input| && Acceptable(input[..i])
    ensures input[i] == '=' ==> Acceptable(input[..i + 1]) && Values(input[..i + 1]) == Values(input[..i])
    ensures IsSymbol(input[i]) ==> Acceptable(input[..i + 1])
    ensures IsSymbol(input[i]) ==> Values(input[..i + 1]) == Values(input[..i]) + [Value(input[i])]
    ensures input[i] != '=' && !IsSymbol(input[i]) ==> !Acceptable(input)
  {
    assert input[..i + 1] == input[..i] + [input[i]];
    assert input[..i + 1][..i] == input[..i];
    AcceptableAppend(input[..i], [input[i]]);
  }

  lemma BitStringAppend(vals: seq<nat>, v: nat)
    requires Quintets(vals) && v < 32
    ensures BitString(vals + [v]) == BitString(vals) + Chunk(v)
  {
    assert (vals + [v])[..|vals|] == vals;
  }

  /** One step of the second loop: the eight bits at `8j` parse to byte `j`. */
  lemma ByteStep(vals: seq<nat>, j: nat)
    requires Quintets(vals) && 8 * j + 8 <= 5 * |vals|
    ensures ParseByte(BitString(vals)[8 * j..8 * j + 8]) == Some(ByteAt(vals, j))
  {
    var from := 8 * j;
    forall p | from <= p < from + 8
      ensures BitString(vals)[p] == DigitChar(BitAt(vals, p))
    {
      BitStringAt(vals, p);
    }
    SliceByte(BitString(vals), vals, j);
  }

  lemma SliceByte(bs: string, vals: seq<nat>, j: nat)
    requires 8 * j + 8 <= |bs| && 8 * j + 8 <= 5 * |vals|
    requires forall p | 8 * j <= p < 8 * j + 8 :: bs[p] == DigitChar(BitAt(vals, p))
    ensures ParseByte(bs[8 * j..8 * j + 8]) == Some(ByteAt(vals, j))
  {
    var chunk := bs[8 * j..8 * j + 8];
    WindowValue(chunk, vals, 8 * j, 8);
    assert Pow(2, 8) == 256;
  }

  /** `base32Decode`. */
  method Decode(input: string) returns (r: Option<seq<byte>>)
    ensures r == Decoded(input)
  {
    var bits := "";
    for i := 0 to |input|
      invariant Acceptable(input[..i])
      invariant bits == BitString(Values(input[..i]))
    {
      var c := input[i];
      Step(input, i);
      if c == '=' {
        continue;
      }
      var index := FirstIndex(Alphabet, c);
      SymbolRanges(c);
      if index.None? {
        assert !Acceptable(input);
        return None;
      }
      var value := index.value;
      ValueIsIndex(c);
      BitStringAppend(Values(input[..i]), value);
      bits := bits + Chunk(value);
    }
    assert input[..|input|] == input;
    ghost var vals := Values(input);
    DigitsOfBitString(vals);
    var bytes := Regroup(bits);
    forall j | 0 <= j < |bytes|
      ensures bytes[j] == ByteAt(vals, j)
    {
      ByteStep(vals, j);
    }
    DecodedBytes(input, bytes);
    return Some(bytes);
  }

  lemma DecodedBytes(input: string, bytes: seq<byte>)
    requires Acceptable(input)
    requires |bytes| == 5 * |Values(input)| / 8
    requires forall j | 0 <= j < |bytes| :: bytes[j] == ByteAt(Values(input), j)
    ensures Decoded(input) == Some(bytes)
  {
    var vals := Values(input);
    var d := StreamBytes(vals, 5 * |vals| / 8);
    forall j | 0 <= j < |d|
      ensures d[j] == bytes[j]
    {
      StreamBytesAt(vals, 5 * |vals| / 8, j);
    }
    assert d == bytes;
  }

  /** The second loop of `base32Decode`: every complete group of eight bits that parses becomes a byte. */
  method Regroup(bits: string) returns (bytes: seq<byte>)
    ensures |bytes| <= |bits| / 8
    ensures AllDigits(bits, 2) ==> |bytes| == |bits| / 8
    ensures AllDigits(bits, 2) ==>
      forall j | 0 <= j < |bytes| :: ParseByte(bits[8 * j..8 * j + 8]) == Some(bytes[j])
  {
    bytes := [];
    var i := 0;
    while i < |bits| - 7
      invariant 8 * |bytes| <= i <= |bits| && i % 8 == 0
      invariant AllDigits(bits, 2) ==> i == 8 * |bytes|
      invariant AllDigits(bits, 2) ==>
        forall j | 0 <= j < |bytes| :: ParseByte(bits[8 * j..8 * j + 8]) == Some(bytes[j])
    {
      var parsed := ParseByte(bits[i..i + 8]);
      if parsed.Some? {
        bytes := bytes + [parsed.value];
      } else if AllDigits(bits, 2) {
        EightDigitsParse(bits[i..i + 8]);
      }
      i := i + 8;
    }
  }

  lemma EightDigitsParse(s: string)
    requires |s| == 8 && AllDigits(s, 2)
    ensures ParseByte(s).Some?
  {
    RadixValueBound(s, 2);
    assert Pow(2, 8) == 256;
  }

  lemma DigitsOfBitString(vals: seq<nat>)
    requires Quintets(vals)
    ensures AllDigits(BitString(vals), 2)
  {
    forall p | 0 <= p < 5 * |vals|
      ensures IsDigit(BitString(vals)[p], 2)
    {
      BitStringAt(vals, p);
    }
  }
}
