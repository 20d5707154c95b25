/** What the Vigenère functions of src/week2.rs promise: the validation order, when a
    call succeeds, the round trip, the identity key, the key period, the empty key and
    the vectors of the module's tests. */
module VigenereProperties {
  import opened Vigenere

  /** An input that passes both validation passes. */
  predicate Valid(s: string, isAlphabetic: char -> bool) {
    AllAlphabetic(s, isAlphabetic) && AllLowercase(s)
  }

  /** Under an ASCII-faithful `is_alphabetic`, the two passes accept exactly lowercase text. */
  lemma ValidIffLowercase(s: string, isAlphabetic: char -> bool)
    requires AgreesWithAscii(isAlphabetic)
    ensures Valid(s, isAlphabetic) <==> AllLowercase(s)
  {
    if AllLowercase(s) {
      forall i | 0 <= i < |s| ensures isAlphabetic(s[i]) {
        assert IsLowercase(s[i]);
      }
    }
  }

  /** The first failing input is the one blamed: the text is checked before the key,
      the key is blamed only for a valid text, and an invalid text is reported the same
      whatever the key. */
  lemma TextCheckedBeforeKey(text: string, subject: Subject, key: string, key': string, isAlphabetic: char -> bool)
    requires subject != Key
    ensures CheckInputs(text, subject, key, isAlphabetic).None?
        <==> Valid(text, isAlphabetic) && Valid(key, isAlphabetic)
    ensures CheckInputs(text, subject, key, isAlphabetic).Some? && CheckInputs(text, subject, key, isAlphabetic).value.subject == subject
        <==> !Valid(text, isAlphabetic)
    ensures !Valid(text, isAlphabetic) ==>
              CheckInputs(text, subject, key, isAlphabetic) == CheckInputs(text, subject, key', isAlphabetic)
  {
  }

  /** Within one input the alphabetic pass comes first: the lowercase error is reported
      only for an input made of alphabetic characters alone, one of which is outside a-z. */
  lemma AlphabeticCheckedBeforeLowercase(text: string, subject: Subject, key: string, isAlphabetic: char -> bool)
    requires subject != Key
    requires CheckInputs(text, subject, key, isAlphabetic).Some?
    ensures var e := CheckInputs(text, subject, key, isAlphabetic).value;
            var blamed := if e.subject == Key then key else text;
            (e.fault == NotLowercase <==> AllAlphabetic(blamed, isAlphabetic) && !AllLowercase(blamed))
  {
  }

  /** Encryption succeeds exactly for lowercase inputs whose key is non-empty when the
      message is; no other call returns a text. */
  lemma EncryptSucceedsIff(message: string, key: string, isAlphabetic: char -> bool)
    requires AgreesWithAscii(isAlphabetic)
    ensures Encrypt(message, key, isAlphabetic).Ok?
        <==> AllLowercase(message) && AllLowercase(key) && (|message| == 0 || |key| > 0)
  {
    ValidIffLowercase(message, isAlphabetic);
    ValidIffLowercase(key, isAlphabetic);
  }

  lemma DecryptSucceedsIff(ciphertext: string, key: string, isAlphabetic: char -> bool)
    requires AgreesWithAscii(isAlphabetic)
    ensures Decrypt(ciphertext, key, isAlphabetic).Ok?
        <==> AllLowercase(ciphertext) && AllLowercase(key) && (|ciphertext| == 0 || |key| > 0)
  {
    ValidIffLowercase(ciphertext, isAlphabetic);
    ValidIffLowercase(key, isAlphabetic);
  }

  /** A key that passes validation but is empty: an empty text gives back the empty
      text, any other text reaches `i % 0` and panics. */
  lemma EmptyKey(text: string, isAlphabetic: char -> bool)
    requires Valid(text, isAlphabetic)
    ensures Encrypt(text, "", isAlphabetic) == if |text| == 0 then Ok("") else RemainderByZero
    ensures Decrypt(text, "", isAlphabetic) == if |text| == 0 then Ok("") else RemainderByZero
  {
    assert Valid("", isAlphabetic);
    if |text| == 0 {
      assert EncryptText(text, "") == "";
      assert DecryptText(text, "") == "";
    }
  }

  /** Output letter i, byte for byte: 97 + ((m[i] - 97) + (k[i mod |k|] - 97)) mod 26. */
  lemma EncryptFormula(message: string, key: string, isAlphabetic: char -> bool, i: nat)
    requires Encrypt(message, key, isAlphabetic).Ok? && i < |message|
    ensures |key| > 0
    ensures Encrypt(message, key, isAlphabetic).text[i] as int
         == 97 + ((message[i] as int - 97) + (key[i % |key|] as int - 97)) % 26
  {
  }

  /** Output letter i: 97 + ((c[i] - 97) - (k[i mod |k|] - 97)) mod 26. */
  lemma DecryptFormula(ciphertext: string, key: string, isAlphabetic: char -> bool, i: nat)
    requires Decrypt(ciphertext, key, isAlphabetic).Ok? && i < |ciphertext|
    ensures |key| > 0
    ensures Decrypt(ciphertext, key, isAlphabetic).text[i] as int
         == 97 + ((ciphertext[i] as int - 97) - (key[i % |key|] as int - 97)) % 26
  {
  }

  /** Adding and subtracting one key letter are inverse on lowercase letters. */
  lemma CharRoundTrip(m: char, k: char)
    requires IsLowercase(m) && IsLowercase(k)
    ensures DecryptChar(EncryptChar(m, k), k) == m
    ensures EncryptChar(DecryptChar(m, k), k) == m
  {
    var x, y := m as int - 97, k as int - 97;
    if x + y < 26 {
      assert (x + y) % 26 == x + y;
    } else {
      assert (x + y) % 26 == x + y - 26;
      assert (x + y - 26 - y) % 26 == (x - 26) % 26 == x;
    }
    if x - y >= 0 {
      assert (x - y) % 26 == x - y;
    } else {
      assert (x - y) % 26 == x - y + 26;
      assert (x - y + 26 + y) % 26 == x;
    }
  }

  /** decrypt(encrypt(P, K), K) == P for every P and K that encryption accepts. */
  lemma RoundTrip(plaintext: string, key: string, isAlphabetic: char -> bool)
    requires AgreesWithAscii(isAlphabetic)
    requires Encrypt(plaintext, key, isAlphabetic).Ok?
    ensures Decrypt(Encrypt(plaintext, key, isAlphabetic).text, key, isAlphabetic) == Ok(plaintext)
  {
    var ciphertext := Encrypt(plaintext, key, isAlphabetic).text;
    EncryptSucceedsIff(plaintext, key, isAlphabetic);
    DecryptSucceedsIff(ciphertext, key, isAlphabetic);
    var back := Decrypt(ciphertext, key, isAlphabetic).text;
    forall i | 0 <= i < |plaintext| ensures back[i] == plaintext[i] {
      CharRoundTrip(plaintext[i], key[i % |key|]);
    }
  }

  /** encrypt(decrypt(C, K), K) == C for every C and K that decryption accepts. */
  lemma RoundTripFromCiphertext(ciphertext: string, key: string, isAlphabetic: char -> bool)
    requires AgreesWithAscii(isAlphabetic)
    requires Decrypt(ciphertext, key, isAlphabetic).Ok?
    ensures Encrypt(Decrypt(ciphertext, key, isAlphabetic).text, key, isAlphabetic) == Ok(ciphertext)
  {
    var plaintext := Decrypt(ciphertext, key, isAlphabetic).text;
    DecryptSucceedsIff(ciphertext, key, isAlphabetic);
    EncryptSucceedsIff(plaintext, key, isAlphabetic);
    var back := Encrypt(plaintext, key, isAlphabetic).text;
    forall i | 0 <= i < |ciphertext| ensures back[i] == ciphertext[i] {
      CharRoundTrip(ciphertext[i], key[i % |key|]);
    }
  }

  /** A key made of 'a' alone, of any length, leaves a lowercase message unchanged. */
  lemma IdentityKey(message: string, key: string, isAlphabetic: char -> bool)
    requires AgreesWithAscii(isAlphabetic)
    requires AllLowercase(message) && |key| > 0
    requires forall i :: 0 <= i < |key| ==> key[i] == 'a'
    ensures Encrypt(message, key, isAlphabetic) == Ok(message)
  {
    EncryptSucceedsIff(message, key, isAlphabetic);
    var c := Encrypt(message, key, isAlphabetic).text;
    forall i | 0 <= i < |message| ensures c[i] == message[i] {
      assert IsLowercase(message[i]);
    }
  }

  /** Repeating the key changes nothing: only `i % |key|` selects the key letter. */
  lemma KeyPeriod(text: string, key: string, isAlphabetic: char -> bool)
    ensures Encrypt(text, key + key, isAlphabetic) == Encrypt(text, key, isAlphabetic)
    ensures Decrypt(text, key + key, isAlphabetic) == Decrypt(text, key, isAlphabetic)
  {
    var kk := key + key;
    assert AllAlphabetic(kk, isAlphabetic) <==> AllAlphabetic(key, isAlphabetic) by {
      if AllAlphabetic(key, isAlphabetic) {
        forall i | 0 <= i < |kk| ensures isAlphabetic(kk[i]) {
          assert kk[i] == key[if i < |key| then i else i - |key|];
        }
      }
      if AllAlphabetic(kk, isAlphabetic) {
        forall i | 0 <= i < |key| ensures isAlphabetic(key[i]) {
          assert key[i] == kk[i];
        }
      }
    }
    assert AllLowercase(kk) <==> AllLowercase(key) by {
      if AllLowercase(key) {
        forall i | 0 <= i < |kk| ensures IsLowercase(kk[i]) {
          assert kk[i] == key[if i < |key| then i else i - |key|];
        }
      }
      if AllLowercase(kk) {
        forall i | 0 <= i < |key| ensures IsLowercase(key[i]) {
          assert key[i] == kk[i];
        }
      }
    }
    if |key| > 0 {
      forall i | 0 <= i < |text| ensures kk[i % |kk|] == key[i % |key|] {
        KeyIndexPeriod(i, |key|);
      }
    }
  }

  /** Position i picks the same letter from key + key as from key. */
  lemma KeyIndexPeriod(i: nat, n: nat)
    requires n > 0
    ensures i % (2 * n) < n ==> i % (2 * n) == i % n
    ensures i % (2 * n) >= n ==> i % (2 * n) - n == i % n
  {
    var q, j := i / (2 * n), i % (2 * n);
    assert i == q * (2 * n) + j;
    assert i == (2 * q) * n + j;
    if j < n {
      RemainderUnique(2 * q, i / n, n, j, i % n);
    } else {
      assert i == (2 * q + 1) * n + (j - n);
      RemainderUnique(2 * q + 1, i / n, n, j - n, i % n);
    }
  }

  /** Two ways of writing a number as a multiple of m plus a remainder below m agree on the remainder. */
  lemma RemainderUnique(a: int, b: int, m: int, r: int, s: int)
    requires m > 0 && 0 <= r < m && 0 <= s < m
    requires a * m + r == b * m + s
    ensures r == s
  {
    if a > b {
      assert (a - b) * m == s - r;
      MultipleAtLeast(a - b, m);
    } else if a < b {
      assert (b - a) * m == r - s;
      MultipleAtLeast(b - a, m);
    }
  }

  lemma {:induction false} MultipleAtLeast(k: int, m: int)
    requires k >= 1 && m > 0
    ensures k * m >= m
  {
    if k > 1 {
      MultipleAtLeast(k - 1, m);
      assert k * m == (k - 1) * m + m;
    }
  }

  /** The letter that undoes a key letter under encryption. */
  function InverseChar(k: char): (k': char)
    ensures IsLowercase(k')
  {
    ((26 - (k as int - 97)) % 26 + 97) as char
  }

  /** The key whose encryption is decryption with `key`. */
  function InverseKey(key: string): (key': string)
    ensures |key'| == |key| && AllLowercase(key')
  {
    seq(|key|, i requires 0 <= i < |key| => InverseChar(key[i]))
  }

  /** Decrypting with K is encrypting with the inverse key: the two transforms differ only
      in the sign of the shift. */
  lemma DecryptIsEncryptWithInverseKey(ciphertext: string, key: string, isAlphabetic: char -> bool)
    requires AgreesWithAscii(isAlphabetic)
    requires AllLowercase(ciphertext) && AllLowercase(key)
    requires |ciphertext| == 0 || |key| > 0
    ensures Decrypt(ciphertext, key, isAlphabetic) == Encrypt(ciphertext, InverseKey(key), isAlphabetic)
  {
    var key' := InverseKey(key);
    DecryptSucceedsIff(ciphertext, key, isAlphabetic);
    EncryptSucceedsIff(ciphertext, key', isAlphabetic);
    var d := Decrypt(ciphertext, key, isAlphabetic).text;
    var e := Encrypt(ciphertext, key', isAlphabetic).text;
    forall i | 0 <= i < |ciphertext| ensures d[i] == e[i] {
      var x, y := ciphertext[i] as int - 97, key[i % |key|] as int - 97;
      assert IsLowercase(key[i % |key|]);
      if y == 0 {
        assert (26 - y) % 26 == 0;
      } else {
        assert (26 - y) % 26 == 26 - y;
        assert (x + (26 - y)) % 26 == (x - y) % 26;
      }
    }
  }

  /** Every input outside the 26 lowercase letters is rejected with an error, in some
      pass, whatever the Unicode tables say about it. */
  lemma NonLowercaseRejected(text: string, key: string, isAlphabetic: char -> bool)
    requires !AllLowercase(text) || !AllLowercase(key)
    ensures Encrypt(text, key, isAlphabetic).Err?
    ensures Decrypt(text, key, isAlphabetic).Err?
  {
  }

  /** Encryption of lowercase text under a non-empty lowercase key returns the
      transformed text. */
  lemma EncryptAccepted(message: string, key: string, isAlphabetic: char -> bool)
    requires AgreesWithAscii(isAlphabetic)
    requires AllLowercase(message) && AllLowercase(key) && |key| > 0
    ensures Encrypt(message, key, isAlphabetic) == Ok(EncryptText(message, key))
  {
    ValidIffLowercase(message, isAlphabetic);
    ValidIffLowercase(key, isAlphabetic);
  }

  /** The encryption tests: a one-letter key "a" is the identity, and three known vectors. */
  lemma EncryptVectorSingleLetter(isAlphabetic: char -> bool)
    requires AgreesWithAscii(isAlphabetic)
    ensures Encrypt("floop", "a", isAlphabetic) == Ok("floop")
  {
    IdentityKey("floop", "a", isAlphabetic);
  }

  lemma EncryptVectorSmall(isAlphabetic: char -> bool)
    requires AgreesWithAscii(isAlphabetic)
    ensures Encrypt("floop", "abc", isAlphabetic) == Ok("fmqoq")
  {
    EncryptAccepted("floop", "abc", isAlphabetic);
    var c := EncryptText("floop", "abc");
    assert c[0] == 'f' && c[1] == 'm' && c[2] == 'q' && c[3] == 'o' && c[4] == 'q';
  }

  lemma EncryptVectorDivisible(isAlphabetic: char -> bool)
    requires AgreesWithAscii(isAlphabetic)
    ensures Encrypt("floopo", "ab", isAlphabetic) == Ok("fmoppp")
  {
    EncryptAccepted("floopo", "ab", isAlphabetic);
    var c := EncryptText("floopo", "ab");
    assert c[0] == 'f' && c[1] == 'm' && c[2] == 'o' && c[3] == 'p' && c[4] == 'p' && c[5] == 'p';
  }

  lemma EncryptVectorNotDivisible(isAlphabetic: char -> bool)
    requires AgreesWithAscii(isAlphabetic)
    ensures Encrypt("floob", "bca", isAlphabetic) == Ok("gnopd")
  {
    EncryptAccepted("floob", "bca", isAlphabetic);
    var c := EncryptText("floob", "bca");
    assert c[0] == 'g' && c[1] == 'n' && c[2] == 'o' && c[3] == 'p' && c[4] == 'd';
  }

  /** The decryption tests: each plaintext comes back after encryption and decryption,
      including the ones that wrap around 'z'. */
  lemma DecryptVectors(isAlphabetic: char -> bool)
    requires AgreesWithAscii(isAlphabetic)
    ensures Decrypt(Encrypt("floop", "a", isAlphabetic).text, "a", isAlphabetic) == Ok("floop")
    ensures Decrypt(Encrypt("floop", "abc", isAlphabetic).text, "abc", isAlphabetic) == Ok("floop")
    ensures Decrypt(Encrypt("floob", "bca", isAlphabetic).text, "bca", isAlphabetic) == Ok("floob")
    ensures Decrypt(Encrypt("zzzz", "b", isAlphabetic).text, "b", isAlphabetic) == Ok("zzzz")
    ensures Decrypt(Encrypt("zzzz", "c", isAlphabetic).text, "c", isAlphabetic) == Ok("zzzz")
    ensures Decrypt(Encrypt("xxx", "b", isAlphabetic).text, "b", isAlphabetic) == Ok("xxx")
    ensures Decrypt(Encrypt("xxx", "z", isAlphabetic).text, "z", isAlphabetic) == Ok("xxx")
  {
    EncryptAccepted("floop", "a", isAlphabetic);
    RoundTrip("floop", "a", isAlphabetic);
    EncryptAccepted("floop", "abc", isAlphabetic);
    RoundTrip("floop", "abc", isAlphabetic);
    EncryptAccepted("floob", "bca", isAlphabetic);
    RoundTrip("floob", "bca", isAlphabetic);
    EncryptAccepted("zzzz", "b", isAlphabetic);
    RoundTrip("zzzz", "b", isAlphabetic);
    EncryptAccepted("zzzz", "c", isAlphabetic);
    RoundTrip("zzzz", "c", isAlphabetic);
    EncryptAccepted("xxx", "b", isAlphabetic);
    RoundTrip("xxx", "b", isAlphabetic);
    EncryptAccepted("xxx", "z", isAlphabetic);
    RoundTrip("xxx", "z", isAlphabetic);
  }

  /** The error tests: a digit or symbol fails the alphabetic pass, an upper-case letter
      the lowercase pass, and the message is blamed before the key. */
  lemma ErrorVectorDigitInKey(isAlphabetic: char -> bool)
    requires AgreesWithAscii(isAlphabetic)
    ensures Encrypt("floopol", "1", isAlphabetic) == Err(CipherError(Key, NotAlphabetic))
  {
    ValidIffLowercase("floopol", isAlphabetic);
    assert !isAlphabetic("1"[0]);
  }

  lemma ErrorVectorDigitInMessage(isAlphabetic: char -> bool)
    requires AgreesWithAscii(isAlphabetic)
    ensures Encrypt("1", "ab", isAlphabetic) == Err(CipherError(Message, NotAlphabetic))
  {
    assert !isAlphabetic("1"[0]);
  }

  lemma ErrorVectorCapitalInKey(isAlphabetic: char -> bool)
    requires AgreesWithAscii(isAlphabetic)
    ensures Encrypt("floopol", "A", isAlphabetic) == Err(CipherError(Key, NotLowercase))
  {
    ValidIffLowercase("floopol", isAlphabetic);
    assert isAlphabetic("A"[0]) && !IsLowercase("A"[0]);
  }

  lemma ErrorVectorCapitalInMessage(isAlphabetic: char -> bool)
    requires AgreesWithAscii(isAlphabetic)
    ensures Encrypt("ABCDE", "abc", isAlphabetic) == Err(CipherError(Message, NotLowercase))
  {
    var upper := "ABCDE";
    assert isAlphabetic('A') && isAlphabetic('B') && isAlphabetic('C') && isAlphabetic('D') && isAlphabetic('E');
    assert AllAlphabetic(upper, isAlphabetic);
    assert !IsLowercase(upper[0]);
  }

  lemma ErrorVectorSymbolInMessage(isAlphabetic: char -> bool)
    requires AgreesWithAscii(isAlphabetic)
    ensures Encrypt("=", "ab", isAlphabetic) == Err(CipherError(Message, NotAlphabetic))
  {
    assert !isAlphabetic("="[0]);
  }

  lemma ErrorVectorSymbolInKey(isAlphabetic: char -> bool)
    requires AgreesWithAscii(isAlphabetic)
    ensures Encrypt("floop", "===", isAlphabetic) == Err(CipherError(Key, NotAlphabetic))
  {
    ValidIffLowercase("floop", isAlphabetic);
    assert !isAlphabetic("==="[0]);
  }

  /** The six error texts are pairwise distinct: a caller can tell every error apart,
      and which input it blames. (Their lengths already differ.) */
  lemma ErrorTextsDistinct(e: CipherError, e': CipherError)
    requires e != e'
    ensures e.Text() != e'.Text()
  {
    assert |e.Text()| == TextLength(e) && |e'.Text()| == TextLength(e');
  }

  /** The length of each error text; a helper that exists only for ErrorTextsDistinct. */
  function TextLength(e: CipherError): nat {
    match (e.subject, e.fault)
    case (Message, NotAlphabetic) => 47
    case (Message, NotLowercase) => 36
    case (Ciphertext, NotAlphabetic) => 50
    case (Ciphertext, NotLowercase) => 39
    case (Key, NotAlphabetic) => 43
    case (Key, NotLowercase) => 32
  }
}
