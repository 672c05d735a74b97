/** The one-time pad: the cleaned key, cut to the length of the text, is
    added letter by letter. Only a key given directly is modelled; a key
    naming a key file (`file:` prefix) is outside the model. */
module OneTimePadCipher {
  import opened Builtins
  import opened BaseCipher
  import VigenereCipher

  const FILE_PREFIX: string := "file:"

  /** The key names a key file instead of holding the key itself. */
  predicate IsFileKey(key: string) {
    |key| >= |FILE_PREFIX| && key[..|FILE_PREFIX|] == FILE_PREFIX
  }

  /** The message of the error raised for a key shorter than the text. */
  function ShortKeyError(keyLength: nat, textLength: nat): string {
    "Key length (" + IntToString(keyLength) + ") is shorter than text length (" +
    IntToString(textLength) + ")"
  }

  /** `_prepare_key(key, n)` for a direct key: the first `n` letters of the
      cleaned key, or an error when it has fewer than `n`. */
  function PreparedKey(key: string, n: nat): (r: Result<string>)
    requires !IsFileKey(key)
    ensures r.Ok? <==> |CleanText(key, false)| >= n
    ensures r.Ok? ==> |r.value| == n && IsUpperText(r.value)
    ensures r.Ok? ==> forall i :: 0 <= i < n ==> r.value[i] == CleanText(key, false)[i]
    ensures r.Err? ==> r.message == ShortKeyError(|CleanText(key, false)|, n)
  {
    var k := CleanText(key, false);
    if |k| < n then Err(ShortKeyError(|k|, n)) else Ok(k[..n])
  }

  /** `OneTimePadCipher.encrypt`: an empty cleaned text gives the empty
      string before the key is looked at. */
  function Encryption(plaintext: string, key: string): Result<string>
    requires !IsFileKey(key)
  {
    var t := CleanText(plaintext, false);
    if |t| == 0 then Ok("")
    else
      match PreparedKey(key, |t|)
      case Err(e) => Err(e)
      case Ok(k) => Ok(AddStream(t, k))
  }

  /** `OneTimePadCipher.decrypt` */
  function Decryption(ciphertext: string, key: string): Result<string>
    requires !IsFileKey(key)
  {
    var t := CleanText(ciphertext, false);
    if |t| == 0 then Ok("")
    else
      match PreparedKey(key, |t|)
      case Err(e) => Err(e)
      case Ok(k) => Ok(SubStream(t, k))
  }

  method Encrypt(plaintext: string, key: string) returns (r: Result<string>)
    requires !IsFileKey(key)
    ensures r == Encryption(plaintext, key)
  {
    var cleaned := CleanText(plaintext, false);
    if |cleaned| == 0 {
      return Ok("");
    }
    var prepared := PreparedKey(key, |cleaned|);
    if prepared.Err? {
      return Err(prepared.message);
    }
    var preparedKey := prepared.value;
    var encrypted := "";
    for i := 0 to |cleaned|
      invariant encrypted == AddStream(cleaned[..i], preparedKey)
    {
      var c := cleaned[i];
      if IsUpperLetter(c) {
        var textIndex := Index(c);
        var keyIndex := Index(preparedKey[i]);
        var encryptedIndex := (textIndex + keyIndex) % SIZE;
        encrypted := encrypted + [Letter(encryptedIndex)];
      }
    }
    assert cleaned[..|cleaned|] == cleaned;
    return Ok(encrypted);
  }

  method Decrypt(ciphertext: string, key: string) returns (r: Result<string>)
    requires !IsFileKey(key)
    ensures r == Decryption(ciphertext, key)
  {
    var cleaned := CleanText(ciphertext, false);
    if |cleaned| == 0 {
      return Ok("");
    }
    var prepared := PreparedKey(key, |cleaned|);
    if prepared.Err? {
      return Err(prepared.message);
    }
    var preparedKey := prepared.value;
    var decrypted := "";
    for i := 0 to |cleaned|
      invariant decrypted == SubStream(cleaned[..i], preparedKey)
    {
      var c := cleaned[i];
      if IsUpperLetter(c) {
        var textIndex := Index(c);
        var keyIndex := Index(preparedKey[i]);
        var decryptedIndex := (textIndex - keyIndex) % SIZE;
        decrypted := decrypted + [Letter(decryptedIndex)];
      }
    }
    assert cleaned[..|cleaned|] == cleaned;
    return Ok(decrypted);
  }

  // ---------------------------------------------------------------------------
  // Properties

  /** A text with no letters encrypts and decrypts to the empty string under
      any key, even one with no letters. */
  lemma {:induction false} EmptyText(text: string, key: string)
    requires !IsFileKey(key) && CleanText(text, false) == ""
    ensures Encryption(text, key) == Ok("") && Decryption(text, key) == Ok("")
  {
  }

  /** Both directions refuse a key with fewer letters than the text, with
      the two lengths in the message. */
  lemma {:induction false} ShortKey(text: string, key: string)
    requires !IsFileKey(key)
    requires 0 < |CleanText(text, false)| && |CleanText(key, false)| < |CleanText(text, false)|
    ensures Encryption(text, key) ==
      Err(ShortKeyError(|CleanText(key, false)|, |CleanText(text, false)|))
    ensures Decryption(text, key) ==
      Err(ShortKeyError(|CleanText(key, false)|, |CleanText(text, false)|))
  {
  }

  /** Letters of the key past the length of the text change nothing. */
  lemma {:induction false} KeyTailIgnored(text: string, key: string, tail: string)
    requires !IsFileKey(key) && !IsFileKey(key + tail)
    requires |CleanText(key, false)| >= |CleanText(text, false)|
    ensures Encryption(text, key + tail) == Encryption(text, key)
    ensures Decryption(text, key + tail) == Decryption(text, key)
  {
    CleanTextAppend(key, tail, false);
    var n := |CleanText(text, false)|;
    var k, e := CleanText(key, false), CleanText(tail, false);
    assert (k + e)[..n] == k[..n];
  }

  /** `decrypt(encrypt(t, key), key) == clean_text(t)` */
  lemma {:induction false} DecryptEncrypt(plaintext: string, key: string)
    requires !IsFileKey(key) && Encryption(plaintext, key).Ok?
    ensures Decryption(Encryption(plaintext, key).value, key) == Ok(CleanText(plaintext, false))
  {
    var t := CleanText(plaintext, false);
    if |t| > 0 {
      var k := PreparedKey(key, |t|).value;
      var c := AddStream(t, k);
      CleanTextOfUpper(c);
      StreamRoundTrip(t, k);
    }
  }

  /** `encrypt(decrypt(c, key), key) == clean_text(c)` */
  lemma {:induction false} EncryptDecrypt(ciphertext: string, key: string)
    requires !IsFileKey(key) && Decryption(ciphertext, key).Ok?
    ensures Encryption(Decryption(ciphertext, key).value, key) == Ok(CleanText(ciphertext, false))
  {
    var t := CleanText(ciphertext, false);
    if |t| > 0 {
      var k := PreparedKey(key, |t|).value;
      var p := SubStream(t, k);
      CleanTextOfUpper(p);
      StreamRoundTrip(t, k);
    }
  }

  /** With a key at least as long as the text, the one-time pad and the
      Vigenère cipher agree: the key is never repeated. */
  lemma {:induction false} LongKeyIsVigenere(plaintext: string, key: string)
    requires !IsFileKey(key) && |CleanText(key, false)| >= |CleanText(plaintext, false)|
    ensures Encryption(plaintext, key) == VigenereCipher.Encryption(plaintext, key)
  {
    var t, k := CleanText(plaintext, false), CleanText(key, false);
    if |t| > 0 {
      var r := VigenereCipher.Repeated(k, |t|);
      forall i | 0 <= i < |t| ensures r[i] == k[i] {
        NumberTheory.ModSmall(i, |k|);
      }
      assert r == k[..|t|];
    }
  }
}
