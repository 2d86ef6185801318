# totp-vault: the TOTP engine in Dafny

totp-vault is a command-line authenticator that keeps base32 TOTP secrets in the macOS
Keychain and prints the current one-time codes. This project models its code-computing
core in `Sources/totp-vault/main.swift`:

- `base32Decode` is modelled as the method `Base32.Decode`. It has the same two loops: the
  first builds the string of `0`/`1` characters, the second parses it eight characters at
  a time. The method is proved equal to the declarative function `Base32.Decoded`, which
  is defined on a numeric bit stream.
- `String.leftPad`, `String(_:radix:)`, `UInt8(_:radix:)`, `uppercased()`,
  `replacingOccurrences(of: " ", with: "")` and `String(format: "%0Nd")` are modelled as
  functions in module `Text`.
- `TOTP.generate` is modelled as the function `Totp.Generate`, assembled from small
  functions, one per stage:
  - the cleaned secret;
  - the time counter;
  - the 8-byte big-endian message;
  - the dynamic truncation (`Offset`, `Fold32` and the 31-bit mask);
  - the modulo;
  - the zero-padded rendering.
- `TOTP.verify` is modelled as the method `Totp.Verify`. It runs the loop of the source
  over the offsets `-window...window` by means of the generic method `Totp.Search`, and
  is proved against the predicate `Totp.Accepts`.
- `TOTP.timeRemaining` is modelled as the function `Totp.TimeRemaining`.
- `TOTPError` and its `errorDescription` are modelled as `Totp.TotpError` and
  `Totp.Description`.

Three things in the source are external and become parameters:
- The clock becomes a parameter `now`, in whole seconds since 1970.
- HMAC-SHA1 becomes a parameter `hmac`: any function from a key and a message to a
  20-byte digest.
- UInt32 arithmetic is written out on unbounded integers. A left shift by 8 keeps the low
  24 bits and multiplies by 256, `& 0x7fffffff` is `% 2^31`, and `& 0x0f` on a byte is
  `% 16`.

Wherever Swift would trap on a value, the model has a precondition or a natural-number
parameter type instead:
- The period of `generate` must be positive. `UInt64(period)` traps on a negative period
  (main.swift:129), and division by zero traps on a zero one.
- `digits` is a `nat` and at most 9. For a negative count, `UInt32(pow(10, -1.0))` is 0,
  so `number % modulo` traps (main.swift:148-149). Above 9, `pow(10, digits)` no longer fits
  a `UInt32`.
- The clock must fit a `UInt64`.
- `window` is a `nat`: for a negative window the range `-window...window` traps
  (main.swift:157).
- In `verify`, `30 * window <= now` and `now + 30 * window < 2^64` must hold: every time
  the window reaches must be a valid `UInt64`. The source is more lenient,
  as explained under "## Left out" for `Totp.Verify`.

`timeRemaining` takes any non-zero period. Swift's `%` and Dafny's `%` agree there,
because the dividend `now` is never negative. The subtraction is unbounded here; see
"## Left out" for `Totp.TimeRemaining`.

### Behaviour worth knowing

- `generate` accepts a secret that decodes to zero bytes: it throws only when
  `base32Decode` returns `nil` (main.swift:124), and an empty or `=`-only input decodes to
  empty `Data` (main.swift:204). Such a secret yields a code keyed by the empty HMAC key;
  `Totp.GenerateFails` states exactly when `generate` throws.
- `base32Decode` rejects whitespace and every other character outside the alphabet
  apart from `=` (main.swift:189-190). `generate` strips spaces only, not tabs or
  newlines, before decoding (main.swift:123, `Totp.Cleaned`).
- `verify` compares codes with `==` (main.swift:159), which `Totp.Search` models; the
  comparison is not constant-time.

## Model

| member | source | states |
|---|---|---|
| Base32.Decode | Sources/totp-vault/main.swift:184-205 | Both loops of the decoder compute exactly `Decoded(input)`: `None` when a character is neither `=` nor a symbol, otherwise every complete byte of the 5-bit stream |
| Base32.DecodeFails | Sources/totp-vault/main.swift:188-190 | Decoding fails if and only if some character is neither `=` nor in the alphabet string |
| Base32.PaddingIgnored | Sources/totp-vault/main.swift:189 | Inserting `=` at any position never changes the decode result |
| Base32.PaddingRemoved | Sources/totp-vault/main.swift:189 | Decoding the input with every `=` removed gives the same result |
| Base32.DecodedLength | Sources/totp-vault/main.swift:192-202 | A successful decode has `5 * symbols / 8` bytes: each symbol adds five bits, and a trailing part byte is dropped |
| Base32.SymbolRanges | Sources/totp-vault/main.swift:185 | The alphabet string holds exactly the letters `A-Z` and the digits `2-7` |
| Base32.ValueIsIndex | Sources/totp-vault/main.swift:190-191 | The position `firstIndex(of:)` finds in the alphabet is the symbol's 5-bit value, and the alphabet holds that symbol there |
| Base32.SymbolValue | Sources/totp-vault/main.swift:185-191 | Symbol and value are inverse: the symbol at position `k` has value `k` |
| Base32.FirstIndex | Sources/totp-vault/main.swift:190 | `None` if and only if the character is absent; otherwise the position of its first occurrence |
| Base32.ChunkBits | Sources/totp-vault/main.swift:192 | A value below 32, rendered in binary and left-padded to 5, is its five bits, most significant first |
| Base32.BitString | Sources/totp-vault/main.swift:186-193 | The bit string of the first loop is five characters per symbol |
| Base32.BitStringAt | Sources/totp-vault/main.swift:186-193 | Character `p` of the bit string is bit `p` of the stream of symbol values |
| Base32.Step | Sources/totp-vault/main.swift:188-191 | One step of the first loop: `=` adds nothing, a symbol appends its value, any other character makes the whole input undecodable |
| Base32.ByteStep | Sources/totp-vault/main.swift:196-200 | The eight characters at position `8j` parse as byte `j` of the stream |
| Base32.Regroup | Sources/totp-vault/main.swift:195-202 | The second loop keeps at most one byte per 8 characters; on a binary string it keeps exactly one per complete group, each parsed from its group |
| Base32.EightDigitsParse | Sources/totp-vault/main.swift:199 | Eight binary digits always parse as a `UInt8`, so the `if let` never drops a group of a well-formed bit string |
| Base32.Values | Sources/totp-vault/main.swift:188-191 | The symbol values of an acceptable input are all below 32 |
| Text.LeftPadShape | Sources/totp-vault/main.swift:207-212 | The padded string is the original when it is long enough; otherwise it is exactly `length` long and ends in the original, with pad characters before it |
| Text.PadKeepsValue | Sources/totp-vault/main.swift:207-212 | Left-padding a digit string with `0` keeps it a digit string with the same value |
| Text.InRadixDigits | Sources/totp-vault/main.swift:192 | `String(v, radix:)` is a non-empty digit string denoting `v`, with a leading `0` only for zero |
| Text.InRadixLength | Sources/totp-vault/main.swift:192 | A value below `radix^n` renders in at most `n` digits |
| Text.RadixValueBound | Sources/totp-vault/main.swift:199 | `n` digits denote a value below `radix^n` |
| Text.ParseRendered | Sources/totp-vault/main.swift:199 | Parsing inverts binary rendering: every byte, written in radix 2 and zero-padded to eight digits, parses back to the same byte |
| Text.ZeroPaddedForm | Sources/totp-vault/main.swift:151 | `%0Nd` renders a digit string denoting the value, at least `N` long, and exactly `N` long when the value has at most `N` digits |
| Text.UppercasedForm | Sources/totp-vault/main.swift:123 | Uppercasing keeps the length, leaves no lower-case ASCII letter, turns each lower-case letter into its own capital, the one at the same place in the alphabet, changes no other character, and is idempotent |
| Text.RemovingSpacesKeeps | Sources/totp-vault/main.swift:123 | Removing spaces keeps exactly the characters other than a space, and never lengthens the string |
| Text.RemovingSpacesAppend | Sources/totp-vault/main.swift:123 | Removing spaces distributes over concatenation |
| Totp.CleanedForm | Sources/totp-vault/main.swift:123 | The cleaned secret has no space and no lower-case ASCII letter |
| Totp.CleanedIgnoresCase | Sources/totp-vault/main.swift:123 | Uppercasing the secret beforehand does not change the cleaned secret |
| Totp.CleanedIgnoresSpace | Sources/totp-vault/main.swift:123 | A space anywhere in the secret does not change the cleaned secret |
| Totp.CounterBytesAreBigEndian | Sources/totp-vault/main.swift:132-133 | The 8 message bytes are the counter's big-endian representation |
| Totp.CounterBytesValue | Sources/totp-vault/main.swift:132-133 | The message is 8 bytes whose big-endian value is the counter |
| Totp.CounterBytesInjective | Sources/totp-vault/main.swift:132-133 | Distinct counters give distinct messages |
| Totp.BeValueOfBigEndian | Sources/totp-vault/main.swift:132-133 | The big-endian representation of a value that fits has that value |
| Totp.BigEndianOfValue | Sources/totp-vault/main.swift:132-133 | Bytes are the big-endian representation of their own value, so the representation is unique |
| Totp.Counter | Sources/totp-vault/main.swift:129 | The counter never exceeds the time |
| Totp.CounterBounds | Sources/totp-vault/main.swift:129 | The counter names the period that contains the time |
| Totp.Offset | Sources/totp-vault/main.swift:141-142 | The offset is at most 15, so the four bytes from it lie inside the 20-byte digest |
| Totp.Fold32IsBigEndian | Sources/totp-vault/main.swift:144 | Folding at most four bytes with shift-and-or in UInt32 gives their big-endian value |
| Totp.Fold32Bound | Sources/totp-vault/main.swift:144 | The fold always stays a UInt32 value |
| Totp.TruncatedValue | Sources/totp-vault/main.swift:141-145 | The truncated number is the big-endian value of the four digest bytes at the offset, with the top bit cleared, below `2^31` |
| Totp.ModuloFitsUInt32 | Sources/totp-vault/main.swift:148 | `10^digits` is at least 1 and fits a UInt32 for every supported digit count |
| Totp.CodeValueBound | Sources/totp-vault/main.swift:148-149 | The code is below `10^digits` and below `2^31` |
| Totp.CodeStringForm | Sources/totp-vault/main.swift:151 | The rendered code is decimal digits denoting the code, exactly `digits` long when `digits >= 1` |
| Totp.GenerateFails | Sources/totp-vault/main.swift:123-126 | `generate` fails if and only if the cleaned secret does not decode, and then with `invalidSecret` |
| Totp.GenerateRenders | Sources/totp-vault/main.swift:121-152 | A generated code is `digits` decimal digits denoting the truncated HMAC, taken modulo `10^digits`, of the decoded key over the time counter |
| Totp.GenerateSeesCleaned | Sources/totp-vault/main.swift:123-124 | Two secrets with the same cleaned form give the same result |
| Totp.CaseIgnored | Sources/totp-vault/main.swift:123 | The case of the secret's letters does not affect the result |
| Totp.SpaceIgnored | Sources/totp-vault/main.swift:123 | A space in the secret does not affect the result |
| Totp.SucceedsAlike | Sources/totp-vault/main.swift:124-126 | Whether `generate` succeeds does not depend on the time, the period or the digit count |
| Totp.StableWithinPeriod | Sources/totp-vault/main.swift:129 | The code does not change for the seconds that `timeRemaining` reports |
| Totp.Search | Sources/totp-vault/main.swift:157-163 | The loop throws `invalidSecret` if and only if generation fails; otherwise it returns true if and only if some offset in `-window...window` generates the code |
| Totp.Verify | Sources/totp-vault/main.swift:155-164 | `verify` throws `invalidSecret` if and only if the cleaned secret does not decode; otherwise it returns true if and only if `generate` yields the code at some offset of the window |
| Totp.AtTimeUniform | Sources/totp-vault/main.swift:159 | Within the window, every call of `generate` fails exactly when the secret does not decode |
| Totp.AcceptsGenerated | Sources/totp-vault/main.swift:157-160 | The code generated at any offset of the window is accepted, including the current code and those of the adjacent periods |
| Totp.AcceptsWider | Sources/totp-vault/main.swift:157 | A code accepted with a window is accepted with any wider window |
| Totp.TimeRemaining | Sources/totp-vault/main.swift:167-170 | For a positive period the result lies in `1...period`, and it equals the period exactly on a period boundary |
| Totp.RotatesAfterTimeRemaining | Sources/totp-vault/main.swift:167-170 | The time counter stays the same for fewer than `timeRemaining` seconds and steps up by one after exactly that many |
| Totp.CountsDown | Sources/totp-vault/main.swift:167-170 | Each second the remaining time drops by one, except at a boundary, where it restarts at the period |

## Left out

- The Keychain store, the command-line commands, argument parsing and terminal output are
  outside the engine and not modelled.
- HMAC-SHA1 comes from swift-crypto, whose code is not part of this model. It is the
  parameter `hmac`, and only its 20-byte result length is relied on.
- The clock: `Date()` is the parameter `now`, a whole number of seconds. The fractional
  part that `UInt64(time.timeIntervalSince1970)` truncates, and the `Double` offset
  arithmetic in `verify`, are not modelled.
- Totp.Generate: floating-point `pow(10, Double(digits))` is replaced by the exact
  integer power, restricted to `digits <= 9`. Beyond that, the conversion to `UInt32`
  traps in the source.
- Text.Uppercased: maps only the ASCII letters `a-z`. Unicode case mapping, which can
  change the length of a string, is not modelled. Swift's `uppercased()` also maps some
  non-ASCII letters into the base32 alphabet: `ſ` becomes `S`, `ı` becomes `I`, `ß` becomes
  `SS`, and `ﬀ` becomes `FF`. The source therefore succeeds on such a secret, while
  `Totp.Generate` fails on it. Totp.GenerateFails and Totp.CaseIgnored inherit this
  restriction.
- Totp.Search: requires that all calls in the window fail alike, and with
  `invalidSecret`. `generate` satisfies this (Totp.AtTimeUniform), but an arbitrary
  throwing function need not.
- Totp.Verify: requires every time in the window to be a valid `UInt64`. The source traps
  only if its loop reaches an offset whose time is negative or does not fit a `UInt64`, or
  whose `offset * 30` overflows `Int`. It returns `true` at an earlier matching offset
  without trapping, and the model does not cover those calls.
- Totp.TimeRemaining: the result `period - now % period` is computed on unbounded
  integers. In the source it overflows `Int`, and traps, for a period below
  `Int.min + now`. Every call site uses the default period of 30.
- Base32.Decode: characters are compared by scalar value. Swift's `for char in input`
  walks grapheme clusters, and `firstIndex(of:)` compares them up to canonical
  equivalence. The source therefore accepts, e.g., U+212A KELVIN SIGN as `K`, and this
  model rejects it. Base32.DecodeFails and Totp.GenerateFails inherit this restriction.
- Text.ParseByte: models `UInt8(_:radix: 2)` only on unsigned strings. Swift also accepts
  a leading `+` or `-` sign, but only strings of `0` and `1` ever reach it in
  `base32Decode`.
- Totp.Description: models `errorDescription` (main.swift:176-180) without a contract. It
  maps the single error case to its fixed message, and there is no property to state
  beyond the message itself.
