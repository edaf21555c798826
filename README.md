# Repeating-key XOR cipher, modelled in Dafny

This project models the XOR cipher in `src/main.rs`. That file has two functions:

- `xor_chars(l, r)` XORs the Unicode scalar values of two characters as `u32`.
  It returns the character with that value when `char::from_u32` accepts it.
  Otherwise it returns an error naming the value.
- `cipher(sentence, key)` returns the empty string for an empty key. Otherwise it
  walks the sentence one character at a time. Each character is paired with the
  next character of a key iterator that cycles forever, and the pair goes
  through `xor_chars`. The results are collected into a new `String`.
  If a pairing is not a valid character, the call panics.

A Rust `char` is a Unicode scalar value, and so is a Dafny `char`. A Rust
string is therefore modelled as a Dafny `string`, which counts characters, not
UTF-8 bytes.

Files:

- `wrappers.dfy` (`Wrappers`) holds the `Option` and `Result` values.
- `bitwise.dfy` (`Bitwise`) defines the `^` operator bit by bit on natural
  numbers. It proves the operator's laws by induction: it is self-inverse, it
  never widens its operands, and it adds operands whose bits are disjoint.
- `cipher.dfy` (`XorCipher`) holds the rest:
  - `char::from_u32` and `xor_chars`.
  - `Collect` models the `collect` of the mapped sentence and stops at the
    first failed pairing.
  - `Ciphered` is the pure meaning of `cipher`.
  - `Cipher` is a method with a loop. It steps a key cursor that wraps to 0
    after the key's last character, and it is proved equal to `Ciphered`.
  - Lemmas cover the source's tests and the involution law.

The `expect` panic in `cipher` becomes a `Failure(CipherPanic(position, error))`
result. `position` is the sentence index at which the panic happens. `error`
is the `InvalidScalarValue` that `xor_chars` returned there.

## Model

| member | source | states |
|---|---|---|
| `XorCipher.FromU32` | src/main.rs:12 | `char::from_u32(v)` returns a character exactly when `v` is at most 0x10FFFF and not in 0xD800..0xDFFF, and that character's scalar value is `v` |
| `XorCipher.XorChars` | src/main.rs:2-13 | `xor_chars(l, r)` succeeds exactly when `l ^ r` is a valid scalar value. On success the result's scalar value is `l ^ r`. Otherwise the error carries the value `l ^ r` |
| `XorCipher.XorCharsFailsExactly` | src/main.rs:5-12 | the `u32` XOR of two scalar values stays below 0x200000, so `xor_chars` fails exactly when the XOR is a surrogate or lies in 0x110000..0x1FFFFF |
| `XorCipher.XorCharsSurrogateCollision` | src/main.rs:12 | two valid characters can XOR into the surrogate band: `xor_chars(U+D000, U+0800)` fails with value 0xD800 |
| `XorCipher.XorCharsAboveMaxScalar` | src/main.rs:12 | two valid characters can XOR past U+10FFFF: `xor_chars(U+100000, U+FFFFF)` fails with value 0x1FFFFF |
| `XorCipher.XorCharsInvolutive` | src/main.rs:74-89 | if `xor_chars(c, k)` gives `x`, then `xor_chars(x, k)` succeeds and gives `c` |
| `XorCipher.XorCharsMaxScalar` | src/main.rs:92-102 | `xor_chars(U+10FFFF, U+0001)` gives U+10FFFE, and XOR-ing that with U+0001 gives U+10FFFF back |
| `XorCipher.XorCharsListRoundTrips` | src/main.rs:74-89 | 'a', 'b', 'c' and 'λ' each encipher under the key 'a', and deciphering gives each back |
| `XorCipher.XorCharsBelow8000` | src/main.rs:42-47 | the assumption that `xor_chars` does not fail holds for every pair of characters below U+8000 |
| `Bitwise.XorSelfInverse` | src/main.rs:7 | `(a ^ b) ^ b == a` for all unsigned `a`, `b` |
| `Bitwise.XorBelowPow2` | src/main.rs:5-7 | the XOR of two n-bit values fits in n bits, so the `u32` XOR of two scalar values never wraps |
| `XorCipher.Collect` | src/main.rs:35-49 | collecting the mapped characters succeeds exactly when every entry succeeded. It then holds entry i's character at position i. Otherwise it fails at the first failed entry with that entry's error |
| `XorCipher.Ciphered` | src/main.rs:21-50 | an empty key gives the empty string. For a non-empty key the call succeeds exactly when every pairing with the cycled key is valid. The output then has the sentence's length, and character i is `xor_chars` of `sentence[i]` and the key character at index i mod n, where n is the key's length. Otherwise the panic is at the first invalid pairing and carries its error |
| `XorCipher.NextCursor` | src/main.rs:31-39 | one step of the cycling key iterator moves the key position from i mod n to (i + 1) mod n, where n is the key's length, so after the key's last character it is back at the first |
| `XorCipher.CipheredMatches` | src/main.rs:35-49 | a string whose every character is the valid pairing at its position is exactly what `cipher` returns |
| `XorCipher.CipheredFailsAt` | src/main.rs:46-47 | if every pairing before position i is valid and the one at i is not, `cipher` panics at i with that pairing's error |
| `XorCipher.Cipher` | src/main.rs:21-50 | the loop over the sentence with a wrapping key cursor returns exactly `Ciphered(sentence, key)`, including the empty-key result and the panic position |
| `XorCipher.CipheredInvolutive` | src/main.rs:65-71 | for a non-empty key and a sentence that enciphers, deciphering the ciphertext with the same key gives back the sentence |
| `XorCipher.RoundTripsBelow8000` | src/main.rs:42-47 | a sentence and a non-empty key with all characters below U+8000 always encipher, and the ciphertext deciphers back |
| `XorCipher.SongRoundTrips` | src/main.rs:65-71 | the lyric line enciphers under the long key from the test, and deciphering gives the line back exactly |

## Left out

- `main` (src/main.rs:52-58) is a demo call with an `assert_eq!`. `SongRoundTrips` states the same round trip.
- The `println!` output of the list test (src/main.rs:83-86) is left out. So is the text of the `xor_chars` error message (src/main.rs:12). The model keeps only the offending value.
- The two `expect` calls in `cipher` (src/main.rs:39, src/main.rs:47) are not modelled as aborts. The one on the key iterator cannot fire, because the key is not empty. The one on `xor_chars` becomes the `CipherPanic` failure result.
- The UTF-8 encoding behind `&str` and `String` is left out. For a sequence of scalar values, `key.is_empty()` in bytes and in characters agree.
- The `map` followed by `collect` is described as every pairing computed and then collected. The Rust iterator is lazy and stops at the first panic. Every pairing is a pure computation, so the outcome is the same. The `Cipher` method stops at the first failure, as the iterator does.
- `src/main.c` is left out. It prints one fixed `char ^ char` and has no logic beyond a single XOR.
- The code panics rather than returning a recoverable error. The model records the panic's position and value in the failure result and returns no partial output.
- A surrogate collision needs two valid characters, for example U+D000 and U+0800, as in `XorCharsSurrogateCollision`. A pair with U+D800 in it can never reach `xor_chars`, because U+D800 is not a character.
- The fourth character of the list test (src/main.rs:76) appears as the two code points U+00CE U+00BB, which is not a valid `char` literal. It is read as 'λ' (U+03BB), whose UTF-8 bytes those are when decoded as Latin-1.
