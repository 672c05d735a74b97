/** The Caesar (shift) cipher: every letter moves a fixed number of places
    along the alphabet. */
module ShiftCipher {
  import opened Builtins
  import opened NumberTheory
  import opened BaseCipher

  const KEY_ERROR: string := "Shift cipher key must be a number"

  /** Every letter moved `shift` places along the alphabet, wrapping round. */
  function Shifted(text: string, shift: int): (r: string)
    requires IsUpperText(text)
    ensures |r| == |text| && IsUpperText(r)
  {
    seq(|text|, i requires 0 <= i < |text| => Letter((Index(text[i]) + shift) % SIZE))
  }

  /** `ShiftCipher.encrypt`: the key is reduced modulo 26 first. */
  function Encryption(plaintext: string, key: string): Result<string> {
    match ParseInt(key)
    case None => Err(KEY_ERROR)
    case Some(k) => Ok(Shifted(CleanText(plaintext, false), k % SIZE))
  }

  /** `ShiftCipher.decrypt` */
  function Decryption(ciphertext: string, key: string): Result<string> {
    match ParseInt(key)
    case None => Err(KEY_ERROR)
    case Some(k) => Ok(Shifted(CleanText(ciphertext, false), -(k % SIZE)))
  }

  method Encrypt(plaintext: string, key: string) returns (r: Result<string>)
    ensures r == Encryption(plaintext, key)
  {
    var parsed := ParseInt(key);
    if parsed.None? {
      return Err(KEY_ERROR);
    }
    var shift := parsed.value % SIZE;
    var cleaned := CleanText(plaintext, false);
    var encrypted := "";
    for i := 0 to |cleaned|
      invariant encrypted == Shifted(cleaned[..i], shift)
    {
      var c := cleaned[i];
      if IsUpperLetter(c) {
        var oldIndex := Index(c);
        var newIndex := (oldIndex + shift) % SIZE;
        encrypted := encrypted + [Letter(newIndex)];
      }
    }
    assert cleaned[..|cleaned|] == cleaned;
    return Ok(encrypted);
  }

  method Decrypt(ciphertext: string, key: string) returns (r: Result<string>)
    ensures r == Decryption(ciphertext, key)
  {
    var parsed := ParseInt(key);
    if parsed.None? {
      return Err(KEY_ERROR);
    }
    var shift := parsed.value % SIZE;
    var cleaned := CleanText(ciphertext, false);
    var decrypted := "";
    for i := 0 to |cleaned|
      invariant decrypted == Shifted(cleaned[..i], -shift)
    {
      var c := cleaned[i];
      if IsUpperLetter(c) {
        var oldIndex := Index(c);
        var newIndex := (oldIndex - shift) % SIZE;
        decrypted := decrypted + [Letter(newIndex)];
      }
    }
    assert cleaned[..|cleaned|] == cleaned;
    return Ok(decrypted);
  }

  // ---------------------------------------------------------------------------
  // Properties

  /** Shifts that agree modulo 26 give the same text. */
  lemma {:induction false} ShiftedCongruent(text: string, s1: int, s2: int)
    requires IsUpperText(text) && s1 % SIZE == s2 % SIZE
    ensures Shifted(text, s1) == Shifted(text, s2)
  {
    forall i | 0 <= i < |text| ensures Shifted(text, s1)[i] == Shifted(text, s2)[i] {
      var x := Index(text[i]);
      CongruentAdd(x, x, s1, s2, SIZE);
    }
  }

  /** Shifting back by the same amount restores the text. */
  lemma {:induction false} ShiftedInverse(text: string, s: int)
    requires IsUpperText(text)
    ensures Shifted(Shifted(text, s), -s) == text
    ensures Shifted(Shifted(text, -s), s) == text
  {
    forall i | 0 <= i < |text|
      ensures Shifted(Shifted(text, s), -s)[i] == text[i]
      ensures Shifted(Shifted(text, -s), s)[i] == text[i]
    {
      ShiftBack(Index(text[i]), s);
      ShiftBack(Index(text[i]), -s);
    }
  }

  /** The shift by zero leaves the text as it is. */
  lemma {:induction false} ShiftedZero(text: string)
    requires IsUpperText(text)
    ensures Shifted(text, 0) == text
  {
    forall i | 0 <= i < |text| ensures Shifted(text, 0)[i] == text[i] {
      ModSmall(Index(text[i]), SIZE);
    }
  }

  /** The ciphertext has the length of the cleaned text and letter `i` is the
      cleaned letter moved by the key itself (not only by the reduced key). */
  lemma {:induction false} EncryptionLetters(plaintext: string, key: string, k: int)
    requires ParseInt(key) == Some(k)
    ensures Encryption(plaintext, key).Ok?
    ensures |Encryption(plaintext, key).value| == |CleanText(plaintext, false)|
    ensures forall i :: 0 <= i < |CleanText(plaintext, false)| ==>
      Encryption(plaintext, key).value[i] == Letter((Index(CleanText(plaintext, false)[i]) + k) % SIZE)
  {
    CongruentMod(k, SIZE);
    ShiftedCongruent(CleanText(plaintext, false), k % SIZE, k);
  }

  /** Keys `k` and `k + 26` encrypt alike. */
  lemma {:induction false} KeyPeriod(plaintext: string, k: int)
    ensures Encryption(plaintext, IntToString(k)) == Encryption(plaintext, IntToString(k + SIZE))
  {
    ParseIntToString(k);
    ParseIntToString(k + SIZE);
    ModAddMultiple(1, k, SIZE);
  }

  /** Decryption with key `k` is encryption with key `-k`. */
  lemma {:induction false} DecryptionIsNegatedEncryption(ciphertext: string, key: string, negated: string, k: int)
    requires ParseInt(key) == Some(k) && ParseInt(negated) == Some(-k)
    ensures Decryption(ciphertext, key) == Encryption(ciphertext, negated)
  {
    var t := CleanText(ciphertext, false);
    var r := k % SIZE;
    NegatedRemainder(k);
    ShiftedCongruent(t, -r, (-k) % SIZE);
  }

  /** `-(k mod 26)` and `(-k) mod 26` agree modulo 26. */
  lemma {:induction false} NegatedRemainder(k: int)
    ensures (-(k % SIZE)) % SIZE == ((-k) % SIZE) % SIZE
  {
    var q, r := k / SIZE, k % SIZE;
    assert -k == SIZE * -q + -r;
    ModAddMultiple(-q, -r, SIZE);
    CongruentMod(-k, SIZE);
  }

  /** Cleaning a shifted text changes nothing, so shifting back restores it. */
  lemma {:induction false} ShiftedRoundTrip(text: string, s: int)
    requires IsUpperText(text)
    ensures Shifted(CleanText(Shifted(text, s), false), -s) == text
  {
    CleanTextOfUpper(Shifted(text, s));
    ShiftedInverse(text, s);
  }

  lemma {:induction false} ShiftedRoundTripBack(text: string, s: int)
    requires IsUpperText(text)
    ensures Shifted(CleanText(Shifted(text, -s), false), s) == text
  {
    CleanTextOfUpper(Shifted(text, -s));
    ShiftedInverse(text, s);
  }

  /** `decrypt(encrypt(t, k), k) == clean_text(t)` */
  lemma {:induction false} DecryptEncrypt(plaintext: string, key: string)
    requires Encryption(plaintext, key).Ok?
    ensures Decryption(Encryption(plaintext, key).value, key) == Ok(CleanText(plaintext, false))
  {
    ShiftedRoundTrip(CleanText(plaintext, false), ParseInt(key).value % SIZE);
  }

  /** `encrypt(decrypt(c, k), k) == clean_text(c)` */
  lemma {:induction false} EncryptDecrypt(ciphertext: string, key: string)
    requires Decryption(ciphertext, key).Ok?
    ensures Encryption(Decryption(ciphertext, key).value, key) == Ok(CleanText(ciphertext, false))
  {
    ShiftedRoundTripBack(CleanText(ciphertext, false), ParseInt(key).value % SIZE);
  }

  /** `encrypt("HELLO", "3") == "KHOOR"` */
  lemma {:induction false} HelloEncrypts()
    ensures Encryption("HELLO", "3") == Ok("KHOOR")
  {
    ParseThree();
    CleanTextOfUpper("HELLO");
    HelloShifted();
  }

  /** `decrypt("KHOOR", "3") == "HELLO"` */
  lemma {:induction false} KhoorDecrypts()
    ensures Decryption("KHOOR", "3") == Ok("HELLO")
  {
    ParseThree();
    CleanTextOfUpper("KHOOR");
    KhoorShifted();
  }

  lemma {:induction false} HelloShifted()
    ensures Shifted("HELLO", 3) == "KHOOR"
  {
    var r := Shifted("HELLO", 3);
    assert r[0] == 'K' && r[1] == 'H' && r[2] == 'O' && r[3] == 'O' && r[4] == 'R';
    assert r == "KHOOR";
  }

  lemma {:induction false} KhoorShifted()
    ensures Shifted("KHOOR", -3) == "HELLO"
  {
    var r := Shifted("KHOOR", -3);
    assert r[0] == 'H' && r[1] == 'E' && r[2] == 'L' && r[3] == 'L' && r[4] == 'O';
    assert r == "HELLO";
  }

  lemma {:induction false} ParseThree()
    ensures ParseInt("3") == Some(3)
  {
    assert IsDigits("3");
    assert DigitsValue("3") == 3 by {
      assert "3"[..0] == "";
    }
  }
}
