# strongPasswordCheckerII, modelled in Dafny

This project models `strongPasswordCheckerII` from `go/main.go`. The function
validates a password string in four steps:

1. It rejects a string whose Go `len` is below 8. `len` is the UTF-8 byte count.
2. It walks the string rune by rune and rejects it as soon as a rune equals the
   one before. `prev` starts at `rune(0)`, so a leading U+0000 is rejected too.
3. It puts each rune in at most one class and raises that class's flag. The
   classes are lower-case letter, any other letter, decimal digit, and one of
   the twelve characters `!@#$%^&*()-+`. Any other rune, such as a space or
   `_`, raises no flag.
4. It returns the conjunction of six flags.

Two of those flags, `has8Chars` and `hasConsecutive`, are declared and never
assigned. Because `has8Chars` stays `false`, the function returns `false` for
every input. The model proves this, and it also proves the intended behaviour
of a corrected version.

Files:

- `utf8.dfy`: module `Utf8`. It holds the UTF-8 encoding of section 3 of
  RFC 3629 for Unicode scalar values, the byte length as a sum of 1–4 byte
  widths, and a strict decoder. Round trips are proved in both directions, so
  a well-formed Go string and its sequence of runes determine each other. The
  checker therefore takes runes, and recovers Go's `len` as
  `|Utf8.Encode(s)|`.
- `go_strings.dfy`: module `GoStrings`. It models `strings.Contains` on bytes
  as "occurs at some byte offset". It also models Go's definition of
  `Contains` through the left-to-right search `strings.Index`, and proves the
  two agree.
- `unicode.dfy`: module `Unicode`. `unicode.IsLetter`, `unicode.IsLower` and
  `unicode.IsDigit` are a `Tables` value of three arbitrary total predicates,
  and every checker property holds for all such values. `AgreesOnAscii` pins
  down the ASCII range, and only the concrete example relies on it.
- `password.dfy`: module `PasswordChecker`. It holds the flags, the loop body
  (`Step`), a pure recursive fold over the runes (`Classify`), the whole
  function as a pure definition (`Check`) and the imperative method
  `StrongPasswordCheckerII`. The method follows the Go statements, including
  the `continue`s, and is proved equal to `Check`.
- `options.dfy`: module `Options`, an `Option` type.

## Model

| member | source | states |
|---|---|---|
| PasswordChecker.StrongPasswordCheckerII | go/main.go:28-65 | The loop version returns exactly what the pure definition `Check` returns, including which `return` statement fires. Its boolean result is always `false`. |
| PasswordChecker.Check | go/main.go:28-64 | A string exits early as too short exactly when its UTF-8 byte length is below 8. An early exit at index i means the runes at i and before i are equal, with `prev` taken as U+0000 at i = 0, and no smaller index has such a repeat. The final return is reached exactly when the string has at least 8 bytes and no repeat anywhere. On that return the flags are those of `Classify` over the whole string. |
| PasswordChecker.Classify | go/main.go:36-59 | The flags after the loop: the loop body folded over the runes from the left. No run of the loop ever sets `has8Chars` or `hasConsecutive`. |
| PasswordChecker.ClassifyMeaning | go/main.go:36-59 | After the loop, each of `hasLower`, `hasUpper`, `hasDigit` and `hasSpecial` is true exactly when some rune of the string is in that flag's class. |
| PasswordChecker.Step | go/main.go:42-58 | One pass of the loop body raises a flag exactly when the rune is in the flag's class: letter and lower-case; letter and not lower-case; not a letter and a digit; neither a letter nor a digit and one of the twelve specials. No other flag changes. |
| PasswordChecker.StepRaisesAtMostOne | go/main.go:42-58 | Each rune raises at most one flag, and the four classes are pairwise disjoint. |
| PasswordChecker.NonLowerLetterIsUpper | go/main.go:42-47 | Every letter that is not lower-case raises `hasUpper`, including letters that have no case. |
| PasswordChecker.IsSpecialIffListed | go/main.go:56 | The byte-level test `strings.Contains("!@#$%^&*()-+", string(char))` holds exactly when the rune is one of the twelve listed characters. A multi-byte rune never matches. |
| PasswordChecker.ClassifyMonotone | go/main.go:36-59 | Flags are monotone: a flag that is true after a prefix is still true after the whole string. |
| PasswordChecker.FirstRepeat | go/main.go:34-40 | The neighbour scan stops at the least index where a rune equals its predecessor, or at index 0 for U+0000. When it finds none, no index has such a repeat. |
| PasswordChecker.CheckStopsAtRepeat | go/main.go:29-39 | Suppose the length test passed and the `char == prev` test fires at index i and at no earlier index. Then the call ends with the early return at index i. |
| PasswordChecker.CheckFinishes | go/main.go:29-64 | Suppose the length test passed and the `char == prev` test fires at no index. Then the call reaches the final return with the flags of the whole string. |
| PasswordChecker.AlwaysFalse | go/main.go:64 | The function returns `false` for every input and every choice of Unicode tables. |
| PasswordChecker.Has8CharsDecides | go/main.go:33-64 | On the final return `hasConsecutive` is false. The answer is then exactly the four class flags conjoined with `has8Chars`, so the constant `false` comes from `has8Chars` alone. |
| PasswordChecker.LeadingNulRejected | go/main.go:34-38 | A string that passes the length test and starts with U+0000 is rejected at index 0. |
| PasswordChecker.LengthTestCountsBytes | go/main.go:29-31 | The length test counts bytes. Eight runes always pass it and one rune never does. Two four-byte runes already pass it. |
| PasswordChecker.IntendedCheckAccepts | go/main.go:61-64 | The corrected checker accepts exactly the strings that have at least 8 bytes, no repeated neighbour and no leading U+0000, and that contain a lower-case letter, an upper-case letter, a digit and a listed special. |
| PasswordChecker.StrongPasswordRejected | go/main.go:64 | Take Unicode tables that are right on ASCII. Then `Aa1!Aa1!` is rejected by the function as written and accepted by the corrected checker. |
| Utf8.Width | go/main.go:29 | Each rune takes 1 to 4 bytes, and it takes 1 byte exactly when it is ASCII. |
| Utf8.Encode | go/main.go:29 | The length of a string's UTF-8 bytes (Go's `len`) is the sum of the widths of its runes. |
| Utf8.ByteLenBounds | go/main.go:29 | The byte length lies between the number of runes and four times that number. It equals the number of runes exactly when every rune is ASCII. |
| Utf8.DecodeEncode | go/main.go:36 | Decoding the UTF-8 bytes of any sequence of scalar values gives the sequence back. This is what `range` yields over that string. |
| Utf8.EncodeDecode | go/main.go:36 | A well-formed byte string is the encoding of what it decodes to. |
| GoStrings.ContainsIffIndex | go/main.go:56 | `strings.Contains(s, substr)`, which Go computes as `strings.Index(s, substr) >= 0`, holds exactly when `substr` occurs at some byte offset of `s`. |
| GoStrings.IndexFindsFirst | go/main.go:56 | `strings.Index(s, substr)`, which `strings.Contains` calls, returns the first byte offset where `substr` occurs. It returns -1 only when `substr` occurs at no offset. |
| GoStrings.ContainsOneByte | go/main.go:56 | A one-byte `substr` is contained exactly when that byte occurs in `s`. |
| GoStrings.ContainsHasFirstByte | go/main.go:56 | A contained non-empty `substr` has its first byte somewhere in `s`. |

## Left out

- `main` (go/main.go:12-26) is not modelled. It only writes a CSV header into a buffer, prints it and writes `test.csv`, all through library I/O.
- The `fmt.Println` of the flags (go/main.go:62) is a side effect that does not affect the result. The printed flags are the ones carried by `Finished`.
- The Unicode category tables behind `unicode.IsLetter`, `unicode.IsLower` and `unicode.IsDigit` are library data. They are left abstract as the `Tables` parameter.
- Strings that are not well-formed UTF-8 are not modelled. On such input Go's `range` yields U+FFFD for each bad byte. The model takes the runes of a well-formed string, and `Utf8.Decode` returns `None` on anything else.
- Go's standard library is not part of this model. `GoStrings.Index` gives the result of `strings.Index` as a plain left-to-right search. Go computes the same result with faster search algorithms, which are not modelled.
- Go's `rune` is a 32-bit integer. Every rune produced by `range` is a scalar value well inside that range, so no wrap-around arises.
- rust/serde_enum/src/main.rs is not modelled. That file has no decoding logic of its own: serde's `#[serde(untagged)]` derive and `serde_json::from_str` do all the work, and neither is part of this model.
- c/socket/client.c, c/socket/server.c, rust/mysql_test/src/main.rs, rust/hello/src/main.rs and hello_cargo/src/main.rs are not modelled. They are socket I/O, database I/O and printing demos, with no logic to model.

## Findings

| source | as written | input that shows it | evidently intended | confidence | as-written member | corrected member |
|---|---|---|---|---|---|---|
| go/main.go:33-64 | `has8Chars` is declared `false`, never assigned, and is a conjunct of the return value, so the function returns `false` for every string. The comment at line 61 marks the checks as unfinished. | `Aa1!Aa1!`: 8 bytes, no equal neighbours, and a lower-case letter, an upper-case letter, a digit and a listed special, yet the result is `false`. | Accept when the length test passes, there is no repeated neighbour and all four class flags are set. | high; not executed | PasswordChecker.StrongPasswordRejected | PasswordChecker.IntendedCheckAccepts |
