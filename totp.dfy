/**
 * The TOTP engine: `TOTP.generate`, `TOTP.verify` and `TOTP.timeRemaining`.
 *
 * The wall clock is the parameter `now` (whole seconds since 1970). HMAC-SHA1, which the
 * source takes from swift-crypto, is the parameter `hmac`: any function from a key and a
 * message to a 20-byte digest.
 */
module Totp {
  import opened Numbers
  import opened Wrappers
  import opened Text
  import opened Base32

  datatype TotpError = InvalidSecret

  /** `TOTPError.errorDescription`. */
  function Description(e: TotpError): string {
    match e
    case InvalidSecret => "Invalid base32 secret"
  }

  /** An HMAC-SHA1 authentication code. */
  type Digest = d: seq<byte> | |d| == 20
    witness [0, 0, 0, 0, 0, 0, 0, 0, 0, 0, 0, 0, 0, 0, 0, 0, 0, 0, 0, 0]

  /** HMAC-SHA1 keyed by the first argument over the message in the second. */
  type Hmac = (seq<byte>, seq<byte>) -> Digest

  const TwoTo31: nat := 0x8000_0000
  const TwoTo32: nat := 0x1_0000_0000
  const TwoTo64: nat := 0x1_0000_0000_0000_0000

  /** The secret as `generate` hands it to the decoder: uppercased, then without spaces. */
  function Cleaned(secret: string): string {
    RemovingSpaces(Uppercased(secret))
  }

  /** The cleaned secret holds no space and no lower-case ASCII letter. */
  lemma CleanedForm(secret: string)
    ensures forall c | c in Cleaned(secret) :: c != ' ' && !('a' <= c <= 'z')
  {
    var u := Uppercased(secret);
    RemovingSpacesKeeps(u);
    forall c | c in Cleaned(secret)
      ensures c != ' ' && !('a' <= c <= 'z')
    {
      var i :| 0 <= i < |u| && u[i] == c;
      assert c == UpperChar(secret[i]);
    }
  }

  /** Uppercasing the secret first changes nothing. */
  lemma CleanedIgnoresCase(secret: string)
    ensures Cleaned(Uppercased(secret)) == Cleaned(secret)
  {
    UppercasedForm(secret);
  }

  /** A space anywhere in the secret is dropped. */
  lemma CleanedIgnoresSpace(a: string, b: string)
    ensures Cleaned(a + " " + b) == Cleaned(a + b)
  {
    assert Uppercased(a + " " + b) == Uppercased(a) + " " + Uppercased(b);
    assert Uppercased(a + b) == Uppercased(a) + Uppercased(b);
    RemovingSpacesAppend(Uppercased(a) + " ", Uppercased(b));
    RemovingSpacesAppend(Uppercased(a), " ");
    RemovingSpacesAppend(Uppercased(a), Uppercased(b));
    assert RemovingSpaces(" ") == RemovingSpaces("") + [];
  }

  /** The value of a byte sequence read most significant byte first. */
  function BeValue(bs: seq<byte>): nat {
    if bs == [] then 0 else BeValue(bs[..|bs| - 1]) * 256 + bs[|bs| - 1] as int
  }

  lemma {:induction false} BeValueBound(bs: seq<byte>)
    ensures BeValue(bs) < Pow(256, |bs|)
  {
    if bs != [] {
      var init := bs[..|bs| - 1];
      BeValueBound(init);
      MulLeft(BeValue(init), Pow(256, |init|) - 1, 256);
    }
  }

  /** The low `n` bytes of `x`, most significant first. */
  function BigEndian(x: nat, n: nat): seq<byte> {
    if n == 0 then [] else BigEndian(x / 256, n - 1) + [(x % 256) as byte]
  }

  /** Writing `x` out as `n` bytes and reading them back gives `x` when it fits. */
  lemma {:induction false} BeValueOfBigEndian(x: nat, n: nat)
    requires x < Pow(256, n)
    ensures |BigEndian(x, n)| == n && BeValue(BigEndian(x, n)) == x
  {
    if n > 0 {
      DivBelow(x, 256, Pow(256, n - 1));
      BeValueOfBigEndian(x / 256, n - 1);
      var r := BigEndian(x, n);
      assert r[..|r| - 1] == BigEndian(x / 256, n - 1);
    }
  }

  /** Reading bytes and writing them out again gives the same bytes. */
  lemma {:induction false} BigEndianOfValue(bs: seq<byte>)
    ensures BeValue(bs) < Pow(256, |bs|)
    ensures BigEndian(BeValue(bs), |bs|) == bs
  {
    BeValueBound(bs);
    if bs != [] {
      var init := bs[..|bs| - 1];
      BigEndianOfValue(init);
      var v := BeValue(bs);
      assert v / 256 == BeValue(init) && v % 256 == bs[|bs| - 1] as int;
      assert bs == init + [bs[|bs| - 1]];
    }
  }

  /** Byte `j` of `x`, counting from the least significant byte. */
  function ByteOf(x: nat, j: nat): byte {
    ((x / Pow(256, j)) % 256) as byte
  }

  /**
   * `counter.bigEndian` as the 8 bytes of `Data(bytes:count:)`: the byte at address `i` is byte
   * `7 - i` of the counter.
   */
  function CounterBytes(counter: nat): seq<byte>
    requires counter < TwoTo64
  {
    seq(8, i requires 0 <= i < 8 => ByteOf(counter, 7 - i))
  }

  /** Position `i` of the `n`-byte big-endian form of `x` holds byte `n - 1 - i` of `x`. */
  lemma {:induction false} BigEndianAt(x: nat, n: nat, i: nat)
    requires i < n
    ensures |BigEndian(x, n)| == n && BigEndian(x, n)[i] == ByteOf(x, n - 1 - i)
  {
    BigEndianLength(x, n);
    if i < n - 1 {
      BigEndianAt(x / 256, n - 1, i);
      BigEndianLength(x / 256, n - 1);
      DivDiv(x, 256, Pow(256, n - 2 - i));
    }
  }

  lemma {:induction false} BigEndianLength(x: nat, n: nat)
    ensures |BigEndian(x, n)| == n
  {
    if n > 0 {
      BigEndianLength(x / 256, n - 1);
    }
  }

  /** The counter bytes are its 8-byte big-endian form. */
  lemma CounterBytesAreBigEndian(counter: nat)
    requires counter < TwoTo64
    ensures CounterBytes(counter) == BigEndian(counter, 8)
  {
    BigEndianLength(counter, 8);
    forall i | 0 <= i < 8
      ensures CounterBytes(counter)[i] == BigEndian(counter, 8)[i]
    {
      BigEndianAt(counter, 8, i);
    }
  }

  /** The message is 8 bytes whose big-endian value is the counter. */
  lemma CounterBytesValue(counter: nat)
    requires counter < TwoTo64
    ensures |CounterBytes(counter)| == 8 && BeValue(CounterBytes(counter)) == counter
  {
    CounterBytesAreBigEndian(counter);
    assert Pow(256, 8) == TwoTo64;
    BeValueOfBigEndian(counter, 8);
  }

  /** Distinct counters are serialised to distinct messages. */
  lemma CounterBytesInjective(c: nat, d: nat)
    requires c < TwoTo64 && d < TwoTo64 && CounterBytes(c) == CounterBytes(d)
    ensures c == d
  {
    CounterBytesValue(c);
    CounterBytesValue(d);
  }

  /**
   * `hmacBytes[hmacBytes.count - 1] & 0x0f`: masking an unsigned byte with `0x0f` keeps its low
   * four bits, which is its remainder modulo 16.
   */
  function Offset(digest: Digest): (r: nat)
    ensures r <= 15 && r + 4 <= |digest|
  {
    digest[|digest| - 1] as nat % 16
  }

  /**
   * `reduce(0) { ($0 << 8) | UInt32($1) }` over UInt32: the shift keeps the low 24 bits of the
   * accumulator, and or-ing the byte into the cleared low 8 bits adds it.
   */
  function Fold32(bs: seq<byte>): nat {
    if bs == [] then 0
    else (Fold32(bs[..|bs| - 1]) % 0x100_0000) * 256 + bs[|bs| - 1] as int
  }

  /** The fold stays a UInt32 value. */
  lemma Fold32Bound(bs: seq<byte>)
    ensures Fold32(bs) < TwoTo32
  {
    if bs != [] {
      var a := Fold32(bs[..|bs| - 1]) % 0x100_0000;
      MulLeft(a, 0xff_ffff, 256);
    }
  }

  /** On at most four bytes nothing is shifted out, so the fold is the big-endian value. */
  lemma {:induction false} Fold32IsBigEndian(bs: seq<byte>)
    requires |bs| <= 4
    ensures Fold32(bs) == BeValue(bs)
  {
    if bs != [] {
      var init := bs[..|bs| - 1];
      Fold32IsBigEndian(init);
      BeValueBound(init);
      PowMonotone(256, |init|, 3);
      assert Pow(256, 3) == 0x100_0000;
    }
  }

  /** Dynamic truncation (section 5.3 of RFC 4226), with `number &= 0x7fffffff` on a UInt32. */
  function Truncated(digest: Digest): nat {
    var offset := Offset(digest);
    var truncatedHash := digest[offset..offset + 4];
    var number := Fold32(truncatedHash);
    number % TwoTo31
  }

  /**
   * The truncated value is the big-endian value of the four digest bytes at the offset, with its
   * top bit cleared, so it fits in 31 bits.
   */
  lemma TruncatedValue(digest: Digest)
    ensures Truncated(digest) < TwoTo31
    ensures Truncated(digest) == BeValue(digest[Offset(digest)..Offset(digest) + 4]) % TwoTo31
  {
    Fold32IsBigEndian(digest[Offset(digest)..Offset(digest) + 4]);
  }

  /** `UInt32(pow(10, Double(digits)))` is exact for the digit counts the source supports. */
  lemma ModuloFitsUInt32(digits: nat)
    requires digits <= 9
    ensures 1 <= Pow(10, digits) <= 1_000_000_000 < TwoTo32
  {
    PowMonotone(10, digits, 9);
    assert Pow(10, 9) == 1_000_000_000;
  }

  /** The numeric code for a key and a time counter. */
  function CodeValue(key: seq<byte>, counter: nat, digits: nat, hmac: Hmac): nat
    requires counter < TwoTo64 && digits <= 9
  {
    var digest := hmac(key, CounterBytes(counter));
    Truncated(digest) % Pow(10, digits)
  }

  /** The code is below `10^digits`, and so below `2^31` for the supported digit counts. */
  lemma CodeValueBound(key: seq<byte>, counter: nat, digits: nat, hmac: Hmac)
    requires counter < TwoTo64 && digits <= 9
    ensures CodeValue(key, counter, digits, hmac) < Pow(10, digits)
    ensures CodeValue(key, counter, digits, hmac) < TwoTo31
  {
    ModuloFitsUInt32(digits);
    var digest := hmac(key, CounterBytes(counter));
    TruncatedValue(digest);
    ModBelow(Truncated(digest), Pow(10, digits));
  }

  lemma ModBelow(t: nat, m: nat)
    requires m > 0
    ensures t % m < m && t % m <= t
  {
  }

  /** The rendered code for a key and a time counter: `String(format: "%0\(digits)d", code)`. */
  function CodeString(key: seq<byte>, counter: nat, digits: nat, hmac: Hmac): string
    requires counter < TwoTo64 && digits <= 9
  {
    ZeroPadded(CodeValue(key, counter, digits, hmac), digits)
  }

  /** The rendering is all decimal digits, exactly `digits` of them when `digits >= 1`, and denotes the code. */
  lemma CodeStringForm(key: seq<byte>, counter: nat, digits: nat, hmac: Hmac)
    requires counter < TwoTo64 && digits <= 9
    ensures var s := CodeString(key, counter, digits, hmac);
      |s| >= 1 && AllDigits(s, 10)
      && (digits >= 1 ==> |s| == digits)
      && RadixValue(s, 10) == CodeValue(key, counter, digits, hmac)
  {
    CodeValueBound(key, counter, digits, hmac);
    ZeroPaddedForm(CodeValue(key, counter, digits, hmac), digits);
  }

  /** The time counter of section 4.2 of RFC 6238: whole periods elapsed since 1970. */
  function Counter(now: nat, period: nat): (c: nat)
    requires period > 0
    ensures c <= now
  {
    QuotientAtMost(now, period);
    now / period
  }

  /** The counter names the period that contains `now`. */
  lemma CounterBounds(now: nat, period: nat)
    requires period > 0
    ensures Counter(now, period) * period <= now < (Counter(now, period) + 1) * period
  {
  }

  /** `TOTP.generate(secret:time:period:digits:)`. */
  function Generate(secret: string, now: nat, period: nat, digits: nat, hmac: Hmac)
    : Result<string, TotpError>
    requires 0 < period && now < TwoTo64 && digits <= 9
  {
    match Decoded(Cleaned(secret))
    case None => Failure(InvalidSecret)
    case Some(secretData) => Success(CodeString(secretData, Counter(now, period), digits, hmac))
  }

  /** `generate` throws `invalidSecret` exactly when the cleaned secret does not decode. */
  lemma GenerateFails(secret: string, now: nat, period: nat, digits: nat, hmac: Hmac)
    requires 0 < period && now < TwoTo64 && digits <= 9
    ensures Generate(secret, now, period, digits, hmac).Failure? <==> Decoded(Cleaned(secret)).None?
    ensures Generate(secret, now, period, digits, hmac) == Failure(InvalidSecret)
      || Generate(secret, now, period, digits, hmac).Success?
  {
  }

  /**
   * A generated code is a string of decimal digits that denotes the code value of the
   * decoded key at the current time counter, `digits` characters long when `digits >= 1`.
   */
  lemma GenerateRenders(secret: string, now: nat, period: nat, digits: nat, hmac: Hmac)
    requires 0 < period && now < TwoTo64 && digits <= 9
    requires Generate(secret, now, period, digits, hmac).Success?
    ensures var s := Generate(secret, now, period, digits, hmac).value;
      |s| >= 1 && AllDigits(s, 10)
      && (digits >= 1 ==> |s| == digits)
      && RadixValue(s, 10) < Pow(10, digits)
      && RadixValue(s, 10) == CodeValue(Decoded(Cleaned(secret)).value, Counter(now, period), digits, hmac)
  {
    var key := Decoded(Cleaned(secret)).value;
    CodeStringForm(key, Counter(now, period), digits, hmac);
    CodeValueBound(key, Counter(now, period), digits, hmac);
  }

  /** `generate` as a function of the time, with the secret fixed and `verify`'s 30-second period and 6 digits. */
  function AtTime(secret: string, hmac: Hmac): nat --> Result<string, TotpError> {
    (t: nat) requires t < TwoTo64 => Generate(secret, t, 30, 6, hmac)
  }

  /** `gen` can be called at every time the offsets `-window...window` around `now` reach. */
  ghost predicate Callable(gen: nat --> Result<string, TotpError>, window: nat, now: nat) {
    30 * window <= now && forall t: nat | t <= now + 30 * window :: gen.requires(t)
  }

  /** Some offset from `k` up to `window` makes `gen` produce `code` at `now + 30 * offset`. */
  predicate FoundFrom(gen: nat --> Result<string, TotpError>, code: string, window: nat, now: nat, k: int)
    requires Callable(gen, window, now) && -(window as int) <= k
  {
    exists j: int | k <= j <= window :: gen(now + 30 * j) == Success(code)
  }

  /** `verify`'s meaning: `generate` yields `code` at some offset of `-window...window` periods from `now`. */
  predicate Accepts(secret: string, code: string, window: nat, now: nat, hmac: Hmac)
    requires 30 * window <= now && now + 30 * window < TwoTo64
  {
    FoundFrom(AtTime(secret, hmac), code, window, now, -(window as int))
  }

  /**
   * The loop of `verify` over the offsets `-window...window`, with `generate` passed as `gen`:
   * when every call fails exactly if `fails` holds, the loop throws `invalidSecret` exactly
   * then, and otherwise finds a match exactly when some offset has one.
   */
  method Search(gen: nat --> Result<string, TotpError>, code: string, window: nat, now: nat, ghost fails: bool)
    returns (r: Result<bool, TotpError>)
    requires Uniform(gen, window, now, fails)
    ensures r.Failure? <==> fails
    ensures r.Failure? ==> r.error == InvalidSecret
    ensures r.Success? ==> (r.value <==> FoundFrom(gen, code, window, now, -(window as int)))
  {
    for offset: int := -(window as int) to window + 1
      invariant offset > -(window as int) ==> !fails
      invariant forall j: int | -(window as int) <= j < offset :: gen(now + 30 * j) != Success(code)
    {
      var checkTime := now + offset * 30;
      var generated := gen(checkTime);
      if generated.Failure? {
        return Failure(generated.error);
      }
      if generated.value == code {
        assert gen(now + 30 * offset) == Success(code);
        return Success(true);
      }
    }
    return Success(false);
  }

  /** `TOTP.verify(secret:code:window:)`, with the clock reading `now`. */
  method Verify(secret: string, code: string, window: nat, now: nat, hmac: Hmac)
    returns (r: Result<bool, TotpError>)
    requires 30 * window <= now && now + 30 * window < TwoTo64
    ensures r.Failure? <==> Decoded(Cleaned(secret)).None?
    ensures r.Failure? ==> r.error == InvalidSecret
    ensures r.Success? ==> (r.value <==> Accepts(secret, code, window, now, hmac))
  {
    AtTimeUniform(secret, hmac, window, now);
    r := Search(AtTime(secret, hmac), code, window, now, Decoded(Cleaned(secret)).None?);
  }

  /** Every call of `gen` the window reaches fails exactly when `fails` holds, and then with `invalidSecret`. */
  ghost predicate Uniform(gen: nat --> Result<string, TotpError>, window: nat, now: nat, fails: bool) {
    Callable(gen, window, now)
    && forall t: nat | t <= now + 30 * window ::
      && (gen(t).Failure? <==> fails)
      && (gen(t).Failure? ==> gen(t).error == InvalidSecret)
  }

  /** `generate` fails exactly when the secret does not decode, whatever the time. */
  lemma AtTimeUniform(secret: string, hmac: Hmac, window: nat, now: nat)
    requires 30 * window <= now && now + 30 * window < TwoTo64
    ensures Uniform(AtTime(secret, hmac), window, now, Decoded(Cleaned(secret)).None?)
  {
    forall t: nat | t <= now + 30 * window
      ensures AtTime(secret, hmac).requires(t)
      ensures (AtTime(secret, hmac)(t).Failure? <==> Decoded(Cleaned(secret)).None?)
        && (AtTime(secret, hmac)(t).Failure? ==> AtTime(secret, hmac)(t).error == InvalidSecret)
    {
      GenerateFails(secret, t, 30, 6, hmac);
    }
  }

  /**
   * Every code that `generate` yields at an offset of the window is accepted: the current code
   * (`k == 0`) and, with a window of one or more, those of the previous and the next period.
   */
  lemma AcceptsGenerated(secret: string, window: nat, now: nat, k: int, hmac: Hmac)
    requires 30 * window <= now && now + 30 * window < TwoTo64 && -(window as int) <= k <= window
    requires Generate(secret, now + 30 * k, 30, 6, hmac).Success?
    ensures Accepts(secret, Generate(secret, now + 30 * k, 30, 6, hmac).value, window, now, hmac)
  {
    var t := now + 30 * k;
    AtTimeIs(secret, hmac, window, now, t);
    FoundAt(AtTime(secret, hmac), Generate(secret, t, 30, 6, hmac).value, window, now, k);
  }

  /** `AtTime` can be called across the window and is `generate` at every time it reaches. */
  lemma AtTimeIs(secret: string, hmac: Hmac, window: nat, now: nat, t: nat)
    requires 30 * window <= now && now + 30 * window < TwoTo64 && t < TwoTo64
    ensures Callable(AtTime(secret, hmac), window, now)
    ensures AtTime(secret, hmac)(t) == Generate(secret, t, 30, 6, hmac)
  {
  }

  /** A matching offset inside the window makes `FoundFrom` hold. */
  lemma FoundAt(gen: nat --> Result<string, TotpError>, code: string, window: nat, now: nat, k: int)
    requires Callable(gen, window, now) && -(window as int) <= k <= window
    requires gen(now + 30 * k) == Success(code)
    ensures FoundFrom(gen, code, window, now, -(window as int))
  {
  }

  /** `generate` sees the secret only through its cleaned form. */
  lemma GenerateSeesCleaned(secret: string, secret': string, now: nat, period: nat, digits: nat, hmac: Hmac)
    requires 0 < period && now < TwoTo64 && digits <= 9
    requires Cleaned(secret) == Cleaned(secret')
    ensures Generate(secret, now, period, digits, hmac) == Generate(secret', now, period, digits, hmac)
  {
  }

  /** The case of the secret's letters does not affect the code. */
  lemma CaseIgnored(secret: string, now: nat, period: nat, digits: nat, hmac: Hmac)
    requires 0 < period && now < TwoTo64 && digits <= 9
    ensures Generate(Uppercased(secret), now, period, digits, hmac) == Generate(secret, now, period, digits, hmac)
  {
    CleanedIgnoresCase(secret);
    GenerateSeesCleaned(Uppercased(secret), secret, now, period, digits, hmac);
  }

  /** A space in the secret does not affect the code. */
  lemma SpaceIgnored(a: string, b: string, now: nat, period: nat, digits: nat, hmac: Hmac)
    requires 0 < period && now < TwoTo64 && digits <= 9
    ensures Generate(a + " " + b, now, period, digits, hmac) == Generate(a + b, now, period, digits, hmac)
  {
    CleanedIgnoresSpace(a, b);
    GenerateSeesCleaned(a + " " + b, a + b, now, period, digits, hmac);
  }

  /** Whether `generate` succeeds does not depend on the time, the period or the digit count. */
  lemma SucceedsAlike(secret: string, now: nat, period: nat, digits: nat, now': nat, period': nat, digits': nat, hmac: Hmac)
    requires 0 < period && now < TwoTo64 && digits <= 9
    requires 0 < period' && now' < TwoTo64 && digits' <= 9
    ensures Generate(secret, now, period, digits, hmac).Success?
      <==> Generate(secret, now', period', digits', hmac).Success?
  {
    GenerateFails(secret, now, period, digits, hmac);
    GenerateFails(secret, now', period', digits', hmac);
  }

  /** Widening the window never turns an accepted code away. */
  lemma AcceptsWider(secret: string, code: string, window: nat, wider: nat, now: nat, hmac: Hmac)
    requires window <= wider && 30 * wider <= now && now + 30 * wider < TwoTo64
    requires Accepts(secret, code, window, now, hmac)
    ensures Accepts(secret, code, wider, now, hmac)
  {
    var k: int :| -(window as int) <= k <= window && AtTime(secret, hmac)(now + 30 * k) == Success(code);
    assert -(wider as int) <= k <= wider;
  }

  /** `TOTP.timeRemaining(period:)`, with the clock reading `now`. */
  function TimeRemaining(now: nat, period: int): (r: int)
    requires period != 0
    ensures period > 0 ==> 1 <= r <= period
    ensures period > 0 ==> (r == period <==> now % period == 0)
  {
    period - now % period
  }

  /** The time counter steps up exactly `TimeRemaining` seconds from now, and not before. */
  lemma RotatesAfterTimeRemaining(now: nat, period: nat, d: nat)
    requires period > 0
    ensures d < TimeRemaining(now, period) ==> (now + d) / period == now / period
    ensures d == TimeRemaining(now, period) ==> (now + d) / period == now / period + 1
  {
    var q, m := now / period, now % period;
    if d < TimeRemaining(now, period) {
      DivideExactly(now + d, period, q, m + d);
    } else if d == TimeRemaining(now, period) {
      DivideExactly(now + d, period, q + 1, 0);
    }
  }

  /** Each second the count drops by one, except at a period boundary, where it starts over. */
  lemma CountsDown(now: nat, period: nat)
    requires period > 0
    ensures (now + 1) % period != 0 ==> TimeRemaining(now + 1, period) == TimeRemaining(now, period) - 1
    ensures (now + 1) % period == 0 ==> TimeRemaining(now + 1, period) == period
  {
    var q, m := now / period, now % period;
    if m + 1 < period {
      DivideExactly(now + 1, period, q, m + 1);
    } else {
      DivideExactly(now + 1, period, q + 1, 0);
    }
  }

  /** The code does not change before the time counter does. */
  lemma StableWithinPeriod(secret: string, now: nat, period: nat, digits: nat, hmac: Hmac, d: nat)
    requires 0 < period && now + d < TwoTo64 && digits <= 9
    requires d < TimeRemaining(now, period)
    ensures Generate(secret, now + d, period, digits, hmac) == Generate(secret, now, period, digits, hmac)
  {
    RotatesAfterTimeRemaining(now, period, d);
  }
}
