# Vigenère cipher (src/week2.rs) in Dafny

This project models the classical Vigenère cipher of `src/week2.rs`: the two public
functions `encrypt_vigenere(message, key)` and `decrypt_vigenere(ciphertext, key)`.

Each function first validates its two inputs, in a fixed order, and returns the first
failure as an error string:

1. the text (message or ciphertext) must consist of alphabetic characters (`char::is_alphabetic`);
2. every byte of the text must lie in 97..122 (`b'a'..=b'z'`);
3. the key must consist of alphabetic characters;
4. every byte of the key must lie in 97..122.

It then walks the text byte by byte. Byte `i` is paired with key byte `i % key.len()`, both
are shifted down by 97, and the output letter is their sum modulo 26 (encrypt) or their
difference modulo 26 (decrypt), shifted back up by 97. Decrypt computes the difference with
an explicit branch (`c >= k ? c - k : 26 - (k - c)`) so that the `u8` subtraction never
underflows.

Files:

- `vigenere.dfy`, module `Vigenere`: the data model, the specification functions `Encrypt`
  and `Decrypt`, and the methods `EncryptVigenere` and `DecryptVigenere`. The methods follow
  the Rust code step by step: the validation loops with early returns, then a `for` loop that
  appends one character per position of the text, computed in `uint8` (Rust's `u8`) so that
  every addition and subtraction is checked for overflow and underflow. Each method is proved
  to return exactly what the specification function says.
- `vigenere_properties.dfy`, module `VigenereProperties`: what the functions promise. This
  covers the validation order, exactly when a call succeeds, the round trip in both
  directions, the identity key, the key period, decryption as encryption with the inverse
  key, the empty key, and every vector of the file's unit tests.

Modelling choices:

- Texts are `string`s, i.e. sequences of Unicode scalar values, which is what a Rust `&str`
  holds. A non-ASCII character has only bytes of 128 or more in UTF-8. So "every byte is in
  97..122" is the same as "every character is in 'a'..'z'" (`AllLowercase`). Once that holds,
  byte positions and character positions coincide.
- `char::is_alphabetic` depends on Unicode tables. It is a parameter `isAlphabetic: char -> bool`
  of every operation. The operations put no condition on it. Lemmas that need its behaviour
  require `AgreesWithAscii(isAlphabetic)`: on ASCII it holds exactly for A–Z and a–z, which is
  what Rust's function does.
- An error is `CipherError(subject, fault)`. `Text()` returns the exact string the Rust code
  returns. There are eight error returns, four per function. Decrypt's text errors say
  "ciphertext". Both functions share the two key strings, so there are six distinct texts.
- The source has no check for an empty key. An empty key passes both key checks, because
  `all` and the byte loop are vacuously true. With an empty text the result is `Ok("")`.
  With a non-empty text, `i % key_len` divides by zero and Rust panics on the first loop
  iteration. The model records this as the outcome `RemainderByZero`, reached at the same
  point inside the loop. It is not an error value the function returns.
- No partial output: `Err` carries no text. Every error return comes before the output is
  built, in the methods as in the source.
- `src/week2.rs` has no check that rejects an empty key (see above), no key-extension
  routine, and six distinct error strings.

## Model

| member | source | states |
|---|---|---|
| Vigenere.CheckInputs | src/week2.rs:8-23 | the validation chain passes only when text and key are both all-lowercase; a failure blames the text or the key |
| Vigenere.EncryptChar | src/week2.rs:41-45 | the encrypted letter of any message/key letter pair is a lowercase letter |
| Vigenere.DecryptChar | src/week2.rs:90-100 | the decrypted letter of any ciphertext/key letter pair is a lowercase letter |
| Vigenere.EncryptText | src/week2.rs:36-48 | the transform loop's output has the message's length, is all lowercase, and letter i is `EncryptChar(message[i], key[i % len key])` |
| Vigenere.DecryptText | src/week2.rs:85-103 | the transform loop's output has the ciphertext's length, is all lowercase, and letter i is `DecryptChar(ciphertext[i], key[i % len key])` |
| Vigenere.Encrypt | src/week2.rs:4-50 | on success the ciphertext has the message's length and is all lowercase; an error blames the message or the key |
| Vigenere.Decrypt | src/week2.rs:53-105 | on success the plaintext has the ciphertext's length and is all lowercase; an error blames the ciphertext or the key |
| Vigenere.SubtractMod26 | src/week2.rs:94-99 | the underflow-free branch always yields 0..25 and equals the difference of the two shifts modulo 26 |
| Vigenere.AllBytesLowercase | src/week2.rs:11-15 | the byte loop answers true exactly when every character is in 'a'..'z' |
| Vigenere.EncryptVigenere | src/week2.rs:4-50 | the imperative encrypt (validation with early returns, `u8` loop pushing one byte per message position, panic on `i % 0`) returns exactly `Encrypt` |
| Vigenere.DecryptVigenere | src/week2.rs:53-105 | the imperative decrypt (same validation, `u8` loop with the underflow-avoiding branch) returns exactly `Decrypt` |
| VigenereProperties.ValidIffLowercase | src/week2.rs:8-15 | with an ASCII-faithful `is_alphabetic`, the alphabetic and byte passes together accept exactly the all-lowercase texts |
| VigenereProperties.TextCheckedBeforeKey | src/week2.rs:8-23 | no error iff both inputs are valid; the text is blamed iff it is invalid, and then the key plays no part in the result |
| VigenereProperties.AlphabeticCheckedBeforeLowercase | src/week2.rs:8-23 | the lowercase error is reported iff the blamed input is all alphabetic yet not all lowercase |
| VigenereProperties.EncryptSucceedsIff | src/week2.rs:4-50 | encryption returns a text iff message and key are lowercase and the key is non-empty when the message is |
| VigenereProperties.DecryptSucceedsIff | src/week2.rs:53-105 | decryption returns a text iff ciphertext and key are lowercase and the key is non-empty when the ciphertext is |
| VigenereProperties.EmptyKey | src/week2.rs:16-37 | a valid text with the empty key gives `Ok("")` when the text is empty and the `i % 0` panic otherwise, for both functions |
| VigenereProperties.EncryptFormula | src/week2.rs:36-48 | on success, output byte i is 97 + ((m[i]-97) + (k[i mod len k]-97)) mod 26 and the key is non-empty |
| VigenereProperties.DecryptFormula | src/week2.rs:85-103 | on success, output byte i is 97 + ((c[i]-97) - (k[i mod len k]-97)) mod 26 and the key is non-empty |
| VigenereProperties.CharRoundTrip | src/week2.rs:41-45 | adding and subtracting the same key letter are inverse on lowercase letters, in both orders |
| VigenereProperties.RoundTrip | src/week2.rs:162-224 | decrypt(encrypt(P, K), K) == Ok(P) whenever encryption succeeds |
| VigenereProperties.RoundTripFromCiphertext | src/week2.rs:53-105 | encrypt(decrypt(C, K), K) == Ok(C) whenever decryption succeeds |
| VigenereProperties.IdentityKey | src/week2.rs:143-145 | a non-empty key made only of 'a' leaves every lowercase message unchanged |
| VigenereProperties.KeyPeriod | src/week2.rs:37 | encrypting or decrypting with key+key gives the same outcome as with key, errors included |
| VigenereProperties.DecryptIsEncryptWithInverseKey | src/week2.rs:94-99 | decrypting with K equals encrypting with the letter-wise inverse of K |
| VigenereProperties.NonLowercaseRejected | src/week2.rs:8-23 | any input with a character outside 'a'..'z' makes both functions return an error, whatever the Unicode tables say |
| VigenereProperties.EncryptAccepted | src/week2.rs:25-49 | lowercase message and non-empty lowercase key: encryption returns the position-wise transformed text |
| VigenereProperties.EncryptVectorSingleLetter | src/week2.rs:143-145 | encrypt("floop", "a") == Ok("floop") |
| VigenereProperties.EncryptVectorSmall | src/week2.rs:148-150 | encrypt("floop", "abc") == Ok("fmqoq") |
| VigenereProperties.EncryptVectorDivisible | src/week2.rs:153-155 | encrypt("floopo", "ab") == Ok("fmoppp") |
| VigenereProperties.EncryptVectorNotDivisible | src/week2.rs:158-160 | encrypt("floob", "bca") == Ok("gnopd") |
| VigenereProperties.DecryptVectors | src/week2.rs:162-224 | every decryption test recovers its plaintext, including the wrap-around cases "zzzz" and "xxx" |
| VigenereProperties.ErrorVectorDigitInKey | src/week2.rs:113-115 | encrypt("floopol", "1") fails with the key-alphabetic error |
| VigenereProperties.ErrorVectorDigitInMessage | src/week2.rs:118-120 | encrypt("1", "ab") fails with the message-alphabetic error |
| VigenereProperties.ErrorVectorCapitalInKey | src/week2.rs:123-125 | encrypt("floopol", "A") fails with the key-lowercase error |
| VigenereProperties.ErrorVectorCapitalInMessage | src/week2.rs:128-130 | encrypt("ABCDE", "abc") fails with the message-lowercase error |
| VigenereProperties.ErrorVectorSymbolInMessage | src/week2.rs:133-135 | encrypt("=", "ab") fails with the message-alphabetic error |
| VigenereProperties.ErrorVectorSymbolInKey | src/week2.rs:138-140 | encrypt("floop", "===") fails with the key-alphabetic error |
| VigenereProperties.ErrorTextsDistinct | src/week2.rs:9-70 | the six error strings are pairwise distinct, so every error and the input it blames can be told apart |

## Left out

- Unicode semantics of `char::is_alphabetic`: a parameter. Only its behaviour on ASCII is
  assumed, and only by the lemmas. For a non-ASCII character the model therefore does not
  say which of the two text errors is reported. It does prove that one of them is.
- The UTF-8 byte view: texts are character sequences. That the byte check equals the
  character check rests on the UTF-8 property stated above, which the model argues in a
  comment and does not prove.
- The panic on an empty key with a non-empty text is an outcome value (`RemainderByZero`).
  Unwinding and the panic message are not modelled.
- Timing: the remarks that `%` is not constant-time concern cost, not results.
- The `#[cfg(test)]` module itself: its cases appear only as the vector lemmas.
- Key extension, `KeyTooLong` and `EmptyKey`: they do not exist in `src/week2.rs`.
