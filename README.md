# Decimal rendering of a big number

This project models the decimal renderer of the `bigly` arbitrary-precision
integer library, `operator<<(std::ostream&, big_number&)`. The renderer reads
three things from a `big_number`: whether `sign()` is negative, the digit count
`magn()`, and the digits `obj[i]`, stored least significant first. It writes an
optional `'-'`, then either the single character `'0'` when there are no digits,
or the digits from index `magn()-1` down to `0`, each as the character `'0' + d`.

Modules:

- `BigNumbers` (`bignumber.dfy`): the number as the renderer sees it.
  `BigNumber(negative, digits)` has accessors `Magn()` and `At(i)`. The file also
  defines the magnitude the digits encode (the sum of `digits[i] * 10^i`) and the
  canonical form: digits in `[0, 9]`, no most-significant zero, and no negative zero.
- `Print` (`print.dfy`): the renderer. `Insert` mirrors the source's `while (idx)`
  loop, with the stream modelled as a `string` that the loop appends to. `Render`
  is the function that specifies it. Lemmas state the sign, zero, order, length
  and digit-character properties of `Render`.
- `Numerals` (`numerals.dfy`): a reader that exists only as a specification. It
  gives the rendered text a meaning: its decimal value, and a parser that inverts
  the renderer, with round-trip lemmas in both directions.

`operator<<` writes `'-'` whenever `sign() < 0`, whatever the digit count, so a
negative number with no digits renders as `"-0"` (`Print.NegativeZero`). That
zero carries no sign is part of `BigNumbers.Canonical`, a precondition of
`Numerals.CanonicalShape`.

## Model

| member | source | states |
|---|---|---|
| `Print.Insert` | src/bn_print.cpp:3-18 | The stream after `os << obj` is the stream before it followed by exactly `Render(obj)`. Every digit read `obj[--idx]` is at an index in `[0, magn())`, and the loop ends because `idx` strictly decreases to 0. The source takes a non-const `big_number&`; the model passes the number as a value, assuming `sign()`, `magn()` and `operator[]` only read it. |
| `Print.DigitChar` | src/bn_print.cpp:12-13 | For a digit `d` in `[0, 9]`, `(char)('0' + d)` is an ASCII decimal digit whose value is `d`. |
| `Print.DigitText` | src/bn_print.cpp:10-14 | The digit characters, most significant first, are exactly as many as the stored digits, and each one is in `'0'..'9'`. |
| `Print.DigitTextAt` | src/bn_print.cpp:11-13 | Character `k` of the digit text is the character of digit `n-1-k`: the order is the reverse of the stored order. |
| `Print.SignFirst` | src/bn_print.cpp:4-6 | The output starts with `'-'` if and only if the number is negative. Otherwise it starts with a decimal digit. |
| `Print.NegativeZero` | src/bn_print.cpp:4-9 | The sign is written whatever the magnitude, so a negative number with no digits renders as `"-0"`. |
| `Print.ZeroDigits` | src/bn_print.cpp:7-9 | With digit count 0, the text after the optional sign is exactly `"0"`. |
| `Print.DigitsReversed` | src/bn_print.cpp:10-14 | With `n > 0` digits, the text after the sign has length `n`, and its character `k` is `'0' + digits[n-1-k]`. |
| `Print.RenderLength` | src/bn_print.cpp:4-15 | The output length is `(negative ? 1 : 0) + max(1, n)`. |
| `Print.DigitCharacters` | src/bn_print.cpp:7-14 | The text after the optional `'-'` is non-empty, and every character in it is `'0'..'9'`. |
| `Print.Examples` | src/bn_print.cpp:3-15 | Digits `[1, 2, 3]` render as `"321"`, a negative `[7]` as `"-7"`, and no digits as `"0"`. A stored single `0` also renders as `"0"`. |
| `BigNumbers.MagnitudeHorner` | src/bn_print.cpp:11-13 | The encoded magnitude (the sum of `d[i] * 10^i`) equals the least significant digit plus ten times the magnitude of the rest. The proof of `Numerals.DigitTextValue` uses this step to read the most-significant-first output back as the sum. |
| `BigNumbers.MagnitudeZero` | src/bn_print.cpp:7-9 | For digits in range with no most-significant zero, the magnitude is zero if and only if the digit count is 0. This is the condition of the `'0'` branch. |
| `Numerals.DigitTextValue` | src/bn_print.cpp:11-13 | Reading the emitted digits as a decimal numeral gives the sum of `digits[i] * 10^i`. |
| `Numerals.RenderValue` | src/bn_print.cpp:4-15 | The text after the sign reads as the stored magnitude. The whole output, read as a signed numeral, is the number's value. |
| `Numerals.DigitsOfDigitText` | src/bn_print.cpp:11-13 | Undoing the digit-to-character mapping and the reversal gives back the stored digit sequence. |
| `Numerals.DigitTextDigitsOf` | src/bn_print.cpp:11-13 | For any string of digit characters, rendering the digits read from it gives back the same string. |
| `Numerals.MagnitudeTextParses` | src/bn_print.cpp:7-14 | For digits in range with no most-significant zero, the text after the sign is either `"0"` or a digit `1`-`9` followed by digits, and it reads back as exactly the stored digits. |
| `Numerals.ParseRender` | src/bn_print.cpp:3-15 | For digits in range with no most-significant zero, parsing the output recovers the number, sign included. |
| `Numerals.RenderParse` | src/bn_print.cpp:3-15 | Every text the parser accepts comes from a number with digits in range and no most-significant zero, and rendering that number gives back the same text. |
| `Numerals.RenderInjective` | src/bn_print.cpp:3-15 | Two numbers with digits in range and no most-significant zero that render to the same text are equal. |
| `Numerals.CanonicalShape` | src/bn_print.cpp:3-15 | A canonical number renders as an optional `'-'` followed by either `"0"` or a digit `1`-`9` and then digits, and never as `"-0"`. |

## Left out

- The `std::ostream` itself (buffering, stream state, the returned reference). The output is a `string` that `Print.Insert` extends.
- The internals of `big_number`: its storage, the implementations of `sign()`, `magn()` and `operator[]`, and the width of `digit_t`. The header is not part of this model, so the number is an abstract sign flag plus a digit sequence.
- The width of `size_t`. The digit count and `idx` are unbounded naturals.
- Print.Insert: that the number is unchanged follows from the model passing it as a value, assuming `sign()`, `magn()` and `operator[]` have no side effects; the header that would show this is not part of this model.
- Print.Insert: requires every digit to be in `[0, 9]`. The result of the `(char)` cast for other digit values is not modelled, because nothing visible guarantees or defines it.
- Arithmetic and parsing of big numbers do not appear in the renderer. `Numerals.Parse` is a specification of reading the text back, not a model of library code.
- Whether the library keeps numbers canonical (no most-significant zero, no negative zero) is not visible here. Canonical form is a precondition of the lemmas that need it, not something the model enforces.
