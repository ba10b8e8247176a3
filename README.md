# ekey packet decoder, modelled in Dafny

This project models the decoder for the ASCII event packets that ekey access-control
terminals send. The decoder is one deterministic function from a character sequence to
"record or failure", built in three layers:

- **Fixed-width token primitives** (`src/nom.rs`): `digit`, `alphanumeric`, `digit_n` and
  `alphanumeric_n`. The nom combinators the grammars use directly are modelled alongside
  them by their meaning: `char`, `anychar`, `fold_many_m_n(n, n, ..)` and `all_consuming`.
- **Single-character enum decoders**: `Action`, `Finger`, `Relay`, `UserStatus`, `Key` and
  `DigitalInput`. The optional ones read `'-'` as `None`.
- **Two packet grammars**, `Home` (27 characters) and `Multi` (46 characters). Each reads
  a leading `'1'`, then any character as the separator, then fixed-width fields. Every
  later field boundary must repeat the separator. `FromStr` wraps the parse in
  `all_consuming`.

## Structure

Files and modules:

- `wrappers.dfy` (`Wrappers`): `Option`, and the parser result `Result<T>`, which is
  `Failure` or `Success(rest, value)`.
- `nom.dfy` (`Nom`): the primitives, the `u16_n`/`u64_n` stand-ins, `trim_end`, and a
  specification-only numeral printer, space padder and separator rewriter
  (`ReplaceSeparators`, shared by both packets).
- `action.dfy` (`ActionField`) and `finger.dfy` (`FingerField`): the code tables and the
  `Display` label tables.
- `home.dfy` (`HomePacket`) and `multi.dfy` (`MultiPacket`): the packets.

How the model is built:

- Every parser returns a `Result`. nom distinguishes error kinds, but all of them become
  the one `Failure`, because `FromStr` maps every error to `Err(())`.
- The repository has no encoder. Each packet module therefore has a specification-only
  `Encode`, which builds the packet string from field values. The decoder is proved
  against it in three ways:
  - a round trip: `FromStr(Encode(r, sep)) == Some(r)` for every in-range record
    (`InRange`, Home) or valid record (`Valid`, Multi) and every separator. Other
    records do not round-trip: an id of 10^4 or more, an absent user name, or a name
    with a trailing space or more than 9 characters;
  - exactness: a decoded string is exactly the encoding of its own record, under its own
    separator;
  - an if-and-only-if characterisation that combines the two.
- The numeric fields are modelled as follows:
  - `digit_n`'s fold `acc * 10 + d` is proved equal to a reference decimal reading,
    `DecimalValue`.
  - `DecimalValue` is proved to be the inverse of the numeral printer `DecimalDigits`.
    So `digit_n(n)` yields a value below 10^n, and its `unwrap_or(0)` fallback never
    contributes.
- `alphanumeric_n` pushes each scanned character onto a `String`. This is modelled twice:
  - as the recursive fold the grammars call (`AlphanumericFold`);
  - as the source's push loop (`CollectAlphanumeric`), proved equal to the fold.
- `Multi::nom` is one sequential parser, and `MultiNom` writes it the same way. The
  proofs about it go through a second form, `StagedNom`, which runs three stages
  (`HeadNom`, `MiddleNom` and `TailNom`) one after another.
  - `MultiNomStages` proves the two forms give the same result on every input, failures
    included.
- Quirks are kept as written:
  - The `Finger` `Display` labels of `LeftLittle` and `LeftRing` are swapped.
  - The `'-'` "absent user name" branch of `Multi::nom` cannot be taken, because
    `alphanumeric` never accepts `'-'` (`UserNamePresent`).
  - The tests name `Finger::RightPointer`, which does not exist. Code `'7'` decodes to
    `RightIndex`, and that is what the test lemmas state.

Behaviour the model takes from the code as written:

- Code tables: the code hard-codes one table per enum, not one per firmware revision,
  and so does the model.
- Errors: every failure (an unknown variant, a malformed separator, a short input) gives
  the same `Err(())`; there are no distinct error kinds.
- Absent key: the code decodes `'-'` to `None`, like every other optional field; there is
  no separate "pass key" variant.
- `u16_n` and `u64_n` are imported at src/home.rs:13 and src/multi.rs:12, but `src/nom.rs`
  does not define them. They are modelled as `digit_n(4)` and `digit_n(14)`, and their
  values are proved to fit `u16` and `u64`.

## Model

| member | source | states |
|---|---|---|
| Nom.Digit | src/nom.rs:3-8 | succeeds exactly when the input starts with an ASCII digit; returns that digit and the input minus exactly that one character |
| Nom.Alphanumeric | src/nom.rs:10-15 | succeeds exactly when the first character is a letter, a digit, a space or `*`, so `'-'`, `'_'` and the empty input fail; consumes exactly that one character |
| Nom.AllowedWhitespaceIsSpace | src/nom.rs:12 | the only whitespace character `alphanumeric` accepts is the space |
| Nom.ToDigit | src/nom.rs:18 | `to_digit(10)` gives a value exactly for the ASCII digits, below 10, and that value prints back as the same character |
| Nom.DecimalDigitsValue | src/nom.rs:18 | reading the `n`-digit numeral of any value below 10^n gives that value back |
| Nom.DecimalValueDigits | src/nom.rs:18 | any run of digits reads as a value below 10^length, and printing that value to the same width gives the same digits |
| Nom.DigitFold | src/nom.rs:18 | `fold_many_m_n(n, n, digit, ..)` succeeds exactly when the first `n` characters are all digits, and then leaves exactly the input after them |
| Nom.DigitFoldValue | src/nom.rs:18 | the fold's value is the accumulator shifted by `n` decimal places plus the decimal reading of the `n` digits, so the `unwrap_or(0)` fallback never contributes |
| Nom.DigitN | src/nom.rs:17-19 | `digit_n(n)` succeeds exactly when the first `n` characters are digits; its value is below 10^n, and the input is that value's `n`-digit numeral followed by the rest |
| Nom.DigitNDecimalDigits | src/nom.rs:17-19 | `digit_n(n)` reads back the numeral of any value below 10^n and leaves whatever follows untouched |
| Nom.DigitNPrefix | src/nom.rs:17-19 | `digit_n(n)` looks at nothing past position `n`: appending input keeps its outcome and value |
| Nom.U16N | src/home.rs:79 | the `u16_n(4)` stand-in accepts exactly four leading digits; its value is below 10^4 (so fits a `u16`), and the input is its numeral followed by the rest |
| Nom.U64N | src/home.rs:83 | the `u64_n(14)` stand-in accepts exactly fourteen leading digits; its value is below 10^14 (so fits a `u64`), and the input is its numeral followed by the rest |
| Nom.U16NDecimalDigits | src/multi.rs:135 | `u16_n` reads back the numeral of any value below 10^n |
| Nom.U64NDecimalDigits | src/multi.rs:146 | `u64_n` reads back the numeral of any value below 10^n |
| Nom.Pow10Values | src/multi.rs:146 | 10^4, 10^14 and 10^19 have their decimal values, so every value `u64_n(14)` yields fits below 2^64 |
| Nom.AlphanumericFold | src/nom.rs:23-26 | the push fold succeeds exactly when the next `n - |acc|` characters are allowed, and then returns the accumulator extended by exactly those characters and leaves the input after them |
| Nom.AlphanumericN | src/nom.rs:21-28 | `alphanumeric_n(n)` succeeds exactly when the first `n` characters are allowed; it returns exactly those `n` characters, unchanged and in order, followed in the input by the rest |
| Nom.CollectAlphanumeric | src/nom.rs:22-27 | the loop that pushes each scanned character onto the string returns exactly what `alphanumeric_n(n)` returns, failure included |
| Nom.AlphanumericNPrefix | src/nom.rs:21-28 | `alphanumeric_n(n)` looks at nothing past position `n` |
| Nom.AlphanumericNSpan | src/nom.rs:21-28 | `alphanumeric_n(n)` reads back any `n` allowed characters and leaves what follows |
| Nom.Char | src/home.rs:77 | `char(c)` succeeds exactly when the input starts with `c`, and then consumes only that character |
| Nom.AnyChar | src/home.rs:78 | `anychar` accepts any first character, even a digit or letter, and fails only on empty input |
| Nom.CharCons | src/home.rs:80 | `char(c)` reads back a `c` put in front of any input |
| Nom.AnyCharCons | src/multi.rs:134 | `anychar` reads back whatever character is put in front of any input |
| Nom.AllConsuming | src/home.rs:97-100 | a parse yields a record exactly when it succeeded and left no input behind |
| Nom.TrimEnd | src/multi.rs:149 | `trim_end` returns a prefix of the text; everything it drops is whitespace, and the result does not end in whitespace |
| Nom.TrimEndPadEnd | src/multi.rs:138 | trimming a scanned span gives a text of at most the span's width, made of allowed characters, not ending in a space, which pads back to the span |
| Nom.PadEndTrimEnd | src/multi.rs:148-149 | padding such a text with spaces and trimming gives the text back |
| Nom.TestNumerals | src/home.rs:110-114 | the test's user id and scanner serial print as `0003` and `80156809150025` |
| ActionField.Nom | src/action.rs:51-64 | succeeds exactly on the ten codes `1`-`8`, `A` and `B`, so `'-'`, `'0'`, `'9'`, lower-case letters and the empty input fail; the input is the decoded variant's code followed by the rest |
| ActionField.NomCode | src/action.rs:53-62 | decoding a variant's code gives that variant and consumes only the code |
| ActionField.CodeInjective | src/action.rs:53-62 | no two variants share a code, so the table is a bijection between the ten codes and the ten variants |
| ActionField.Display | src/action.rs:34-45 | the `Display` label of each variant, as written; its contract is `DisplayInjective`: no two variants share a label |
| ActionField.DisplayInjective | src/action.rs:34-45 | the ten `Display` labels are pairwise distinct |
| FingerField.Nom | src/finger.rs:53-68 | succeeds exactly on `0`-`9`, `R` and `'-'` (lower-case `r` and the empty input fail); `'-'` is `None`; the input is the decoded value's code followed by the rest |
| FingerField.NomCode | src/finger.rs:55-66 | decoding the code of an optional finger gives it back, for `'-'` as well, and consumes only the code |
| FingerField.CodeInjective | src/finger.rs:55-66 | the code table, sentinel included, is one-to-one |
| FingerField.Display | src/finger.rs:35-46 | the `Display` label of each finger, with the `LeftLittle`/`LeftRing` labels swapped as written; its contract is `DisplayInjective`: the labels are still pairwise distinct |
| FingerField.DisplayInjective | src/finger.rs:35-46 | the eleven labels are pairwise distinct, and `LeftLittle` shows "left ring finger" while `LeftRing` shows "left little finger", as written |
| HomePacket.RelayNom | src/home.rs:33-42 | succeeds exactly on `1`-`4`, lower-case `d` and `'-'`; the input is the decoded relay's code followed by the rest |
| HomePacket.RelayNomCode | src/home.rs:33-42 | decoding the code of an optional relay gives it back |
| HomePacket.Packet | src/home.rs:76-90 | a Home packet is 27 characters plus whatever follows |
| HomePacket.HomeNom | src/home.rs:76-90 | `Home::nom`: `'1'`, any separator, then user id, finger, serial, action and relay, each after that separator; its contract is `HomeNomExact` (what a success consumed) and `HomeNomPacket` (the round trip) |
| HomePacket.HomeNomExact | src/home.rs:76-90 | a successful `Home::nom` consumed at least 27 characters that are exactly the packet of the decoded record under the separator at index 1; the user id is below 10^4 and the serial below 10^14 |
| HomePacket.FromStr | src/home.rs:93-102 | a decoded string is exactly 27 characters, is the packet of its own record and separator, and has both numbers in range |
| HomePacket.HomeNomPacket | src/home.rs:76-90 | for any separator, `Home::nom` reads the packet of an in-range record back into that record and leaves what follows untouched |
| HomePacket.FromStrEncode | src/home.rs:93-102 | round trip: `from_str` of a record's packet gives that record, whatever the separator |
| HomePacket.FromStrCharacterization | src/home.rs:93-102 | a string decodes to a record exactly when the record is in range and the string is its packet under the string's own separator |
| HomePacket.PacketLayout | src/home.rs:76-90 | where each field sits: `'1'` at 0, separators at 1, 6, 8, 23, 25, the id at 2-5, finger at 7, serial at 9-22, action at 24, relay at 26 |
| HomePacket.SeparatorPositions | src/home.rs:78-86 | in a decoded packet the separator at index 1 recurs at 6, 8, 23 and 25 |
| HomePacket.EncodeSeparators | src/home.rs:78-86 | a packet holds its separator at every separator index |
| HomePacket.ReplaceSeparatorsEncode | src/home.rs:78-86 | overwriting every separator index of a packet with another character gives the same record's packet under that separator |
| HomePacket.SeparatorIndependence | src/home.rs:78-86 | rewriting all separator positions of a decodable packet to any one character decodes to the same record |
| HomePacket.NoTrailingData | src/home.rs:97-100 | a decodable packet with one more character, or one fewer, fails |
| HomePacket.TestPacket | src/home.rs:108-117 | `"1_0003_7_80156809150025_1_2"` decodes to user 3, finger code `'7'` (`RightIndex`), serial 80156809150025, `Open`, `Relay2` |
| MultiPacket.UserStatusNom | src/multi.rs:26-28 | succeeds exactly on `1`, `2` and `'-'`; the input is the decoded status's code followed by the rest |
| MultiPacket.UserStatusNomCode | src/multi.rs:27 | decoding the code of an optional user status gives it back |
| MultiPacket.KeyNom | src/multi.rs:45-53 | succeeds exactly on `1`-`4` and `'-'`; the input is the decoded key's code followed by the rest |
| MultiPacket.KeyNomCode | src/multi.rs:46-52 | decoding the code of an optional key gives it back |
| MultiPacket.DigitalInputNom | src/multi.rs:70-78 | succeeds exactly on `1`-`4` and `'-'`; the input is the decoded input's code followed by the rest |
| MultiPacket.DigitalInputNomCode | src/multi.rs:71-77 | decoding the code of an optional digital input gives it back |
| MultiPacket.Packet | src/multi.rs:132-169 | a Multi packet is 46 characters plus whatever follows |
| MultiPacket.TextFieldTrimEnd | src/multi.rs:148-149 | a scanned name span trims to a valid field text that pads back to the span |
| MultiPacket.UserNamePresent | src/multi.rs:137-138 | a scanned user-name span never starts with `'-'`, so the user name is always present: the span trimmed, at most 9 allowed characters, no trailing space |
| MultiPacket.UserName | src/multi.rs:138 | the user name derived from its span: absent on a leading `'-'`, otherwise the trimmed span; its contract is `UserNamePresent`: on every scanned span the name is present |
| MultiPacket.MultiNom | src/multi.rs:132-169 | `Multi::nom`, one sequential parser over the nine fields in the source's order; its contract is `MultiNomExact` (what a success consumed) and `MultiNomPacket` (the round trip), through `MultiNomStages` |
| MultiPacket.HeadNom | src/multi.rs:133-138 | the first stretch of `Multi::nom`: `'1'`, separator, user id and user name; its contract is `HeadNomExact` and `HeadNomPacket` |
| MultiPacket.MiddleNom | src/multi.rs:139-146 | the second stretch: status, finger, key and serial, each after the separator; its contract is `MiddleNomExact` and `MiddleNomPacket` |
| MultiPacket.TailNom | src/multi.rs:147-153 | the last stretch: scanner name, action and digital input, each after the separator; its contract is `TailNomExact` and `TailNomPacket` |
| MultiPacket.HeadNomExact | src/multi.rs:133-138 | the first stage reads the separator from index 1, an id below 10^4 and a present, valid user name, and consumed exactly their head stretch |
| MultiPacket.MiddleNomExact | src/multi.rs:139-146 | the second stage reads a serial below 10^14 and consumed exactly the stretch of its four fields |
| MultiPacket.TailNomExact | src/multi.rs:147-153 | the third stage reads a valid scanner name (at most 4 allowed characters, no trailing space) and consumed exactly the stretch of its three fields |
| MultiPacket.MultiNomStages | src/multi.rs:132-169 | on every input, `Multi::nom` and its three stages run in turn give the same result: the stages read the same fields in the same order and fail at exactly the same points |
| MultiPacket.MultiNomExact | src/multi.rs:132-169 | a successful `Multi::nom` consumed at least 46 characters that are exactly the packet of a valid decoded record under the separator at index 1 |
| MultiPacket.FromStr | src/multi.rs:172-183 | a decoded string is exactly 46 characters, is the packet of its own record and separator, and the record is valid |
| MultiPacket.TextFieldSpan | src/multi.rs:148-149 | `alphanumeric_n` reads the padded form of a valid name back whole, and trimming it gives the name |
| MultiPacket.HeadNomPacket | src/multi.rs:133-138 | the first stage reads a head stretch of an in-range id and a valid name back |
| MultiPacket.MiddleNomPacket | src/multi.rs:139-146 | the second stage reads a middle stretch back, whatever the codes |
| MultiPacket.TailNomPacket | src/multi.rs:147-153 | the third stage reads a tail stretch of a valid scanner name back |
| MultiPacket.MultiNomPacket | src/multi.rs:132-169 | for any separator, `Multi::nom` reads the packet of a valid record back into that record and leaves what follows untouched |
| MultiPacket.FromStrEncode | src/multi.rs:172-183 | round trip: `from_str` of a valid record's packet gives that record, whatever the separator |
| MultiPacket.FromStrCharacterization | src/multi.rs:172-183 | a string decodes to a record exactly when the record is valid and the string is its packet under the string's own separator |
| MultiPacket.EncodeAgree | src/multi.rs:133-152 | the packets of one record under two separators hold each separator at indices 1, 6, 16, 18, 20, 22, 37, 42, 44 and agree everywhere else |
| MultiPacket.SeparatorPositions | src/multi.rs:133-152 | in a decoded packet the separator at index 1 recurs at 6, 16, 18, 20, 22, 37, 42 and 44 |
| MultiPacket.ReplaceSeparatorsEncode | src/multi.rs:133-152 | overwriting every separator index of a packet with another character gives the same record's packet under that separator |
| MultiPacket.SeparatorIndependence | src/multi.rs:133-152 | rewriting all separator positions of a decodable packet to any one character decodes to the same record |
| MultiPacket.NoTrailingData | src/multi.rs:178-181 | a decodable packet with one more character, or one fewer, fails |
| MultiPacket.TestPacket | src/multi.rs:190-202 | `"1_0003_JOSEF    _1_7_2_80156809150025_GAR _1_-"` decodes to user 3, "JOSEF", `Active`, finger code `'7'` (`RightIndex`), `Key2`, 80156809150025, "GAR", `Open`, no input |

## Left out

- Unicode letters and digits: `alphanumeric` accepts any Unicode alphanumeric character, and `&s[1..]` then slices one byte, which panics on a multi-byte character. The model admits only ASCII letters and digits, and the panic is not modelled.
- Error kinds: nom's error values are collapsed into one `Failure`, because `FromStr` maps every error to `Err(())`.
- serde `Serialize` derives and the `fmt::Formatter` mechanics of `Display`: only the label tables are modelled.
- Accessors (`user_id()`, `finger()` and so on) return stored fields unchanged; they are the datatype's field destructors and have no members of their own.
- `src/rare.rs` (a stub whose parser is `todo!()`), `src/lib.rs` (module wiring) and `examples/sink.rs` (a UDP receive loop) are not part of this model.
- Code tables selectable per firmware revision: the code hard-codes one table per enum, and the model follows it.
- `u16_n` and `u64_n` are not defined in `src/nom.rs`; `Nom.U16N` and `Nom.U64N` stand in for them as `digit_n(4)` and `digit_n(14)`.
- The tests' `Finger::RightPointer` does not exist; the test lemmas state the variant that code `'7'` decodes to, `RightIndex`.
- Nom.DigitN: the `usize` accumulator of `digit_n` (src/nom.rs:18) is an unbounded integer, so the model assumes a 64-bit `usize`, or a `u64` accumulator in the missing `u64_n`. Width 4 cannot overflow on any target. The crate also builds without the standard library (src/lib.rs:1), and on a 32-bit target `acc * 10 + d` can overflow from the tenth digit on (a panic in debug builds, a wrap-around in release builds), so the 14-digit serial would not fit; neither is modelled.
