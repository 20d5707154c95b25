/** The Vigenère cipher of src/week2.rs: `encrypt_vigenere` and `decrypt_vigenere`.

    Texts are `string`s, i.e. sequences of Unicode scalar values, which is what a Rust
    `&str` holds. Rust's `char::is_alphabetic` depends on Unicode tables and is passed in
    as the parameter `isAlphabetic`; `AgreesWithAscii` states what it is known to do on
    ASCII. Each operation is written twice: a specification function (`Encrypt`,
    `Decrypt`) and a method that follows the Rust code step by step (`EncryptVigenere`,
    `DecryptVigenere`), proved equal to it.
 */
module Vigenere {

  /** Rust's `u8`. Arithmetic on it is checked against its range, so every subtraction
      and addition the methods perform is proved not to underflow or overflow. */
  newtype uint8 = x: int | 0 <= x < 256

  const LowerA: uint8 := 97        // b'a'
  const LowerZ: uint8 := 122       // b'z'
  const AlphabetSize: uint8 := 26

  datatype Option<T> = None | Some(value: T)

  /** Which input an error message blames. */
  datatype Subject = Message | Ciphertext | Key

  /** Which of the two validation passes failed. */
  datatype Fault = NotAlphabetic | NotLowercase

  datatype CipherError = CipherError(subject: Subject, fault: Fault) {
    /** The `&'static str` the Rust function returns for this error; the two key texts
        are the same in both functions. */
    function Text(): string {
      match (subject, fault)
      case (Message, NotAlphabetic) => "message must contain only alphabetic characters"
      case (Message, NotLowercase) => "message must be all lowercase values"
      case (Ciphertext, NotAlphabetic) => "ciphertext must contain only alphabetic characters"
      case (Ciphertext, NotLowercase) => "ciphertext must be all lowercase values"
      case (Key, NotAlphabetic) => "key must contain only alphabetic characters"
      case (Key, NotLowercase) => "key must be all lowercase values"
    }
  }

  /** What a call ends with. `Err` carries no text: every error is returned before any
      output is built. `RemainderByZero` is the panic of `i % key_len` with `key_len == 0`. */
  datatype Outcome = Ok(text: string) | Err(error: CipherError) | RemainderByZero

  /** The byte of a `char` lies in 97..122; for a non-ASCII char every byte of its UTF-8
      encoding is at least 128, so this is exactly the byte check of the source. */
  predicate IsLowercase(c: char) {
    LowerA as int <= c as int <= LowerZ as int
  }

  predicate AllLowercase(s: string) {
    forall i :: 0 <= i < |s| ==> IsLowercase(s[i])
  }

  /** `s.chars().all(char::is_alphabetic)` */
  predicate AllAlphabetic(s: string, isAlphabetic: char -> bool) {
    forall i :: 0 <= i < |s| ==> isAlphabetic(s[i])
  }

  /** What `char::is_alphabetic` does on ASCII: exactly the letters A-Z and a-z. */
  ghost predicate AgreesWithAscii(isAlphabetic: char -> bool) {
    forall c: char :: c as int < 128 ==> (isAlphabetic(c) <==> ('A' <= c <= 'Z' || 'a' <= c <= 'z'))
  }

  /** The validation chain shared by both functions: text alphabetic, text lowercase,
      key alphabetic, key lowercase; the first failure is the one reported. */
  function CheckInputs(text: string, subject: Subject, key: string, isAlphabetic: char -> bool): (r: Option<CipherError>)
    requires subject != Key  // the text is the message or the ciphertext
    ensures r.None? ==> AllLowercase(text) && AllLowercase(key)
    ensures r.Some? ==> r.value.subject in {subject, Key}
  {
    if !AllAlphabetic(text, isAlphabetic) then Some(CipherError(subject, NotAlphabetic))
    else if !AllLowercase(text) then Some(CipherError(subject, NotLowercase))
    else if !AllAlphabetic(key, isAlphabetic) then Some(CipherError(Key, NotAlphabetic))
    else if !AllLowercase(key) then Some(CipherError(Key, NotLowercase))
    else None
  }

  /** One letter of the ciphertext: the shifts of `m` and `k` from 'a', added modulo 26. */
  function EncryptChar(m: char, k: char): (c: char)
    ensures IsLowercase(c)
  {
    (((m as int - 97) + (k as int - 97)) % 26 + 97) as char
  }

  /** One letter of the plaintext: the shift of `k` subtracted from that of `c`, modulo 26. */
  function DecryptChar(c: char, k: char): (m: char)
    ensures IsLowercase(m)
  {
    (((c as int - 97) - (k as int - 97)) % 26 + 97) as char
  }

  /** Position `i` of the text is paired with key position `i % |key|`. */
  function EncryptText(message: string, key: string): (c: string)
    requires |message| == 0 || |key| > 0
    ensures |c| == |message| && AllLowercase(c)
    ensures forall i :: 0 <= i < |message| ==> c[i] == EncryptChar(message[i], key[i % |key|])
  {
    seq(|message|, i requires 0 <= i < |message| => EncryptChar(message[i], key[i % |key|]))
  }

  function DecryptText(ciphertext: string, key: string): (m: string)
    requires |ciphertext| == 0 || |key| > 0
    ensures |m| == |ciphertext| && AllLowercase(m)
    ensures forall i :: 0 <= i < |ciphertext| ==> m[i] == DecryptChar(ciphertext[i], key[i % |key|])
  {
    seq(|ciphertext|, i requires 0 <= i < |ciphertext| => DecryptChar(ciphertext[i], key[i % |key|]))
  }

  /** What `encrypt_vigenere(message, key)` does. */
  function Encrypt(message: string, key: string, isAlphabetic: char -> bool): (r: Outcome)
    ensures r.Ok? ==> |r.text| == |message| && AllLowercase(r.text)
    ensures r.Err? ==> r.error.subject in {Message, Key}
  {
    match CheckInputs(message, Message, key, isAlphabetic)
    case Some(e) => Err(e)
    case None =>
      if |message| > 0 && |key| == 0 then RemainderByZero
      else Ok(EncryptText(message, key))
  }

  /** What `decrypt_vigenere(ciphertext, key)` does. */
  function Decrypt(ciphertext: string, key: string, isAlphabetic: char -> bool): (r: Outcome)
    ensures r.Ok? ==> |r.text| == |ciphertext| && AllLowercase(r.text)
    ensures r.Err? ==> r.error.subject in {Ciphertext, Key}
  {
    match CheckInputs(ciphertext, Ciphertext, key, isAlphabetic)
    case Some(e) => Err(e)
    case None =>
      if |ciphertext| > 0 && |key| == 0 then RemainderByZero
      else Ok(DecryptText(ciphertext, key))
  }

  /** `c as u8`, for a char known to be ASCII. */
  function Byte(c: char): (b: uint8)
    requires c as int < 256
    ensures b as int == c as int
  {
    c as int as uint8
  }

  /** The branch of decrypt_vigenere that computes `c - k` modulo 26 without letting
      the `u8` subtraction go below zero. */
  function SubtractMod26(c: uint8, k: uint8): (r: uint8)
    requires c < AlphabetSize && k < AlphabetSize
    ensures r < AlphabetSize
    ensures r as int == (c as int - k as int) % 26
  {
    if c >= k then c - k
    else
      var diff := k - c;
      AlphabetSize - diff
  }

  /** The byte loop: every byte of `s` lies in 97..122. */
  method AllBytesLowercase(s: string) returns (ok: bool)
    ensures ok <==> AllLowercase(s)
  {
    for i := 0 to |s|
      invariant forall j :: 0 <= j < i ==> IsLowercase(s[j])
    {
      var b := s[i] as int;
      if b < LowerA as int || b > LowerZ as int {
        return false;
      }
    }
    return true;
  }

  /** `encrypt_vigenere` */
  method EncryptVigenere(message: string, key: string, isAlphabetic: char -> bool) returns (r: Outcome)
    ensures r == Encrypt(message, key, isAlphabetic)
  {
    if !AllAlphabetic(message, isAlphabetic) {
      return Err(CipherError(Message, NotAlphabetic));
    }
    var ok := AllBytesLowercase(message);
    if !ok {
      return Err(CipherError(Message, NotLowercase));
    }
    if !AllAlphabetic(key, isAlphabetic) {
      return Err(CipherError(Key, NotAlphabetic));
    }
    ok := AllBytesLowercase(key);
    if !ok {
      return Err(CipherError(Key, NotLowercase));
    }

    var keyLen := |key|;
    var ciphertext := "";
    for i := 0 to |message|
      invariant i == 0 || keyLen > 0
      invariant |ciphertext| == i
      invariant forall j :: 0 <= j < i ==> ciphertext[j] == EncryptChar(message[j], key[j % keyLen])
    {
      if keyLen == 0 {
        return RemainderByZero;
      }
      var keyIdx := i % keyLen;
      var msgByteShifted := Byte(message[i]) - LowerA;
      var keyByteShifted := Byte(key[keyIdx]) - LowerA;
      // both shifts are at most 25, so the u8 sum is at most 50
      var ciphertextByteShifted := (msgByteShifted + keyByteShifted) % AlphabetSize;
      var ciphertextByte := ciphertextByteShifted + LowerA;
      ciphertext := ciphertext + [ciphertextByte as char];
    }
    return Ok(ciphertext);
  }

  /** `decrypt_vigenere` */
  method DecryptVigenere(ciphertext: string, key: string, isAlphabetic: char -> bool) returns (r: Outcome)
    ensures r == Decrypt(ciphertext, key, isAlphabetic)
  {
    if !AllAlphabetic(ciphertext, isAlphabetic) {
      return Err(CipherError(Ciphertext, NotAlphabetic));
    }
    var ok := AllBytesLowercase(ciphertext);
    if !ok {
      return Err(CipherError(Ciphertext, NotLowercase));
    }
    if !AllAlphabetic(key, isAlphabetic) {
      return Err(CipherError(Key, NotAlphabetic));
    }
    ok := AllBytesLowercase(key);
    if !ok {
      return Err(CipherError(Key, NotLowercase));
    }

    var keyLen := |key|;
    var plaintext := "";
    for i := 0 to |ciphertext|
      invariant i == 0 || keyLen > 0
      invariant |plaintext| == i
      invariant forall j :: 0 <= j < i ==> plaintext[j] == DecryptChar(ciphertext[j], key[j % keyLen])
    {
      if keyLen == 0 {
        return RemainderByZero;
      }
      var keyIdx := i % keyLen;
      var ciphertextByteShifted := Byte(ciphertext[i]) - LowerA;
      var keyByteShifted := Byte(key[keyIdx]) - LowerA;
      var plaintextByteShifted := SubtractMod26(ciphertextByteShifted, keyByteShifted);
      var plaintextByte := plaintextByteShifted + LowerA;
      plaintext := plaintext + [plaintextByte as char];
    }
    return Ok(plaintext);
  }
}
