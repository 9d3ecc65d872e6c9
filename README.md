# ff-derive-num, modelled in Dafny

`ff-derive-num` is a derive macro. For a prime-field type made with
`ff_derive`, it generates the `num_traits` impls that generic numeric code
expects: `Num::from_str_radix`, `Zero`, `One`, `Div`, `Rem` and `MulAdd`. This
project models the code that the macro generates. It does so generically,
over an abstract prime field.

- `PrimeField` (`field.dfy`) is the field the generated code runs on. It
  consumes this field; it does not implement it. An element is a natural
  number below the modulus `p`. Every operation takes `p` as a parameter.
  `Self::from(n)` is `n % p`. `ZERO` and `ONE` are the identities. Addition and
  multiplication are reduced mod `p`. `invert` returns nothing for zero and an
  inverse otherwise. Inversion uses the extended Euclidean algorithm
  (`ExtGcd`), and its result is proved to be the unique inverse when `p` is
  prime.
- `RadixParser` (`radix_parser.dfy`) is the generated `from_str_radix`. The
  method `FromStrRadix` follows the generated code step by step: the
  empty-string check, the `"0"` fast path, the accumulator, the `radix`
  element, a `firstDigit` flag, and a loop over the characters with early
  returns. Each step of the loop is `acc *= radix; acc += from(digit)`. The
  method is proved equal to `Parse`, a reference definition that gives the
  integer value of the numeral (`Value`) reduced mod `p`, or the error kind.
  The lemmas about `Parse` state the error classification, Horner's step, and
  the round trip with the canonical base-`radix` numeral `ToBase`.
  `char::to_digit` is the ASCII mapping: `0`-`9` stand for 0-9, letters of
  either case stand for 10-35, and a digit is accepted only below the radix.
- `ArithmeticAdapter` (`arithmetic.dfy`) holds the other generated impls.
  `Zero`/`One` are specified by the identity laws. `Div` gives the unique
  quotient. `Rem` keeps its check on the dividend. `MulAdd` works on a local
  copy of `self`.

Error kinds follow the code. `from_str_radix` reports two kinds: `Empty`, for
the empty string (line 51), and `InvalidDigit`. Lines 66 and 75 return the same
value, which is the error of parsing `"3"` in radix 2. So a leading zero is
reported with the same `InvalidDigit` kind as a character that is not a
digit. Rust's `IntErrorKind` has no leading-zero kind, so `ErrorKind` has
none either.

## Model

| member | source | states |
|---|---|---|
| `RadixParser.FromStrRadix` | src/lib.rs:48-80 | the scanner's result is exactly `Parse`: `Empty` for `""`, zero for `"0"`, `InvalidDigit` for a non-digit or a leading zero, otherwise the numeral's value mod `p` |
| `RadixParser.Parse` | src/lib.rs:48-80 | a successful result is a field element (below `p`); the result is `Empty` if and only if the string is empty |
| `RadixParser.ToDigit` | src/lib.rs:62 | `to_digit(radix)` yields a value below the radix that is the character's ASCII digit value, and yields nothing exactly when the character is no digit or its value is not below the radix |
| `RadixParser.EmptyRejected` | src/lib.rs:49-52 | the empty string fails with `Empty` in every radix 2..36 |
| `RadixParser.ZeroNumeral` | src/lib.rs:54-56 | `"0"` parses to the additive identity in every radix |
| `RadixParser.InvalidCharRejected` | src/lib.rs:61-77 | one character that is not a digit in the radix makes the parse fail with `InvalidDigit`, whatever characters come before or after it |
| `RadixParser.LeadingZeroRejected` | src/lib.rs:64-68 | a numeral of two or more characters that starts with `'0'` fails with `InvalidDigit`, the same kind as a bad character |
| `RadixParser.HornerSnoc` | src/lib.rs:71-72 | one loop step: the value of the digits read so far extended by one digit, reduced mod `p`, is `acc * from(radix) + from(digit)` in the field |
| `RadixParser.AppendDigit` | src/lib.rs:58-79 | for a parsed numeral other than `"0"`, appending any valid digit (a zero included) gives `parse(s) * radix + digit` in the field |
| `RadixParser.ToBase` | src/lib.rs:58-79 | not a routine of the source: the independent reference numeral that the round trip `ParseToBase` parses with the loop of these lines; the canonical numeral of `v` consists of digits of the radix, denotes `v`, and has no leading zero unless it is `"0"` |
| `RadixParser.ParseToBase` | src/lib.rs:48-80 | parsing the canonical base-`radix` numeral of any natural `v` gives `v mod p` |
| `RadixParser.HexExamples` | src/lib.rs:48-80 | in radix 16, `"1A"` is 26 mod `p`, `"10"` is 16 mod `p`, and `"1G"` and `"01"` fail with `InvalidDigit` |
| `PrimeField.Invert` | src/lib.rs:110 | `invert` yields nothing exactly for zero; otherwise it yields an element whose product with the input is one |
| `PrimeField.InverseUnique` | src/lib.rs:110 | any element whose product with `x` is one is what `invert(x)` yields |
| `PrimeField.FromNatMul` | src/lib.rs:59 | `Self::from` carries the product of naturals to the field product, so `from(radix)` multiplies correctly |
| `PrimeField.FromNatAdd` | src/lib.rs:72 | `Self::from` carries the sum of naturals to the field sum |
| `ArithmeticAdapter.Zero` | src/lib.rs:84-86 | `zero()` is an element that added to any element leaves it unchanged |
| `ArithmeticAdapter.IsZero` | src/lib.rs:88-90 | `is_zero(x)` holds if and only if `x` is neutral for addition |
| `ArithmeticAdapter.One` | src/lib.rs:94-96 | `one()` is an element that multiplied by any element leaves it unchanged |
| `ArithmeticAdapter.IsOne` | src/lib.rs:98-100 | `is_one(x)` holds if and only if `x` is neutral for multiplication |
| `ArithmeticAdapter.IdentitiesRecognised` | src/lib.rs:83-101 | `is_zero(zero())` and `is_one(one())` hold; `is_zero(one())` and `is_one(zero())` do not |
| `ArithmeticAdapter.Div` | src/lib.rs:103-121 | requires a nonzero divisor (the `unwrap` panics on zero); the quotient times the divisor is the dividend |
| `ArithmeticAdapter.DivIsUniqueQuotient` | src/lib.rs:108-120 | the quotient is the only element whose product with the divisor is the dividend |
| `ArithmeticAdapter.DivIdentities` | src/lib.rs:108-120 | `x / one() == x`, and `zero() / y == zero()` for every nonzero `y` |
| `ArithmeticAdapter.Rem` | src/lib.rs:123-147 | requires a nonzero dividend `self`, whatever `rhs` is (both impls panic otherwise); the result is the additive identity for every divisor, zero included, and for a nonzero divisor it completes `x == (x / y) * y + x % y` |
| `ArithmeticAdapter.RemAcceptsZeroDivisor` | src/lib.rs:127-133 | `1 % 0` returns zero, and no quotient `q` satisfies `q * 0 + 1 % 0 == 1` |
| `ArithmeticAdapter.RemByDivisor` | src/lib.rs:123-147 | with a nonzero divisor required instead, the result is zero and completes the division identity for every dividend, zero included |
| `ArithmeticAdapter.MulAdd` | src/lib.rs:149-167 | `mul_add(x, a, b)` is `(x * a + b) mod p` |

## Left out

- The macro's plumbing is not modelled: `syn::parse`, `DeriveInput`, `quote!` and the `TokenStream` assembly (src/lib.rs:39-44, 168-170). It generates code at compile time and has no behaviour of its own.
- The `ff` field is only modelled as arithmetic mod `p`. Its Montgomery representation, its reduction, its own inversion algorithm and the constant-time `CtOption`/`Choice` wrappers (the `bool::from` calls at lines 89, 128 and 141) are not modelled. `invert` becomes `PrimeField.Invert`, which returns an `Option`.
- The error values are not modelled: the code builds them by making `u32::from_str_radix` fail on purpose (lines 51, 66, 75). The model keeps only their `IntErrorKind`, and so `ErrorKind` has just `Empty` and `InvalidDigit`.
- Radixes outside 2..36 are excluded by a precondition (`IsRadix`). There, `char::to_digit` and `u32::from_str_radix` panic.
- Characters outside ASCII are not modelled beyond having no digit value, which is all `to_digit` gives them.
- The by-reference overloads of `Div`, `Rem` and `MulAdd` (lines 114-121, 136-147, 159-167) have no members of their own. Their bodies are the same as the by-value impls, and a Dafny value has no owned/borrowed distinction. So `Div`, `Rem` and `MulAdd` model both forms. Neither form of `mul_add` can change `a` or `b`.
- Panics are not modelled as outcomes. The `unwrap` in `div` and the `panic!` in `rem` become preconditions.
- The widths of `r as u64` and `c as u64` are not modelled. They never truncate, because the radix is at most 36 and so is every digit.
- Only prime fields are modelled (`PrimeField.IsPrime`), the kind `ff_derive` produces. The parser itself needs only `p > 1`.

## Findings

| source | as written | input that shows it | evidently intended | confidence | as-written member | corrected member |
|---|---|---|---|---|---|---|
| src/lib.rs:127-146 | both `rem` impls panic when the dividend `self` is zero, and return zero for any divisor, zero included | `1 % 0` returns `0` although no quotient gives `q * 0 + 0 == 1`, and `0 % 1` panics although `0 == 0 * 1 + 0` | panic exactly when the divisor `rhs` is zero, as `div` does, and return zero otherwise | medium; not executed | `ArithmeticAdapter.RemAcceptsZeroDivisor` | `ArithmeticAdapter.RemByDivisor` |
