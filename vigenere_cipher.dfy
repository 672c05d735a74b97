/** The Vigenère cipher: the cleaned key, repeated to the length of the
    text, is added letter by letter. */
module VigenereCipher {
  import opened Builtins
  import opened NumberTheory
  import opened BaseCipher
  import ShiftCipher

  const EMPTY_KEY_ERROR: string := "Vigenere cipher key cannot be empty"

  /** `k` repeated, and cut, to length `n`. */
  function Repeated(k: string, n: nat): (r: string)
    requires |k| > 0
    ensures |r| == n
  {
    seq(n, i requires 0 <= i < n => k[i % |k|])
  }

  /** `_prepare_key(key, n)` */
  function PreparedKey(key: string, n: nat): (r: Result<string>)
  {
    var k := CleanText(key, false);
    if |k| == 0 then Err(EMPTY_KEY_ERROR) else Ok(Repeated(k, n))
  }

  method PrepareKey(key: string, textLength: nat) returns (r: Result<string>)
    ensures r == PreparedKey(key, textLength)
  {
    var k := CleanText(key, false);
    if |k| == 0 {
      return Err(EMPTY_KEY_ERROR);
    }
    var repeatedKey := "";
    for i := 0 to textLength
      invariant repeatedKey == Repeated(k, i)
    {
      repeatedKey := repeatedKey + [k[i % |k|]];
    }
    return Ok(repeatedKey);
  }

  /** `VigenereCipher.encrypt`: an empty cleaned text gives the empty string
      before the key is looked at. */
  function Encryption(plaintext: string, key: string): Result<string> {
    var t := CleanText(plaintext, false);
    if |t| == 0 then Ok("")
    else
      match PreparedKey(key, |t|)
      case Err(e) => Err(e)
      case Ok(k) => Ok(AddStream(t, k))
  }

  /** `VigenereCipher.decrypt` */
  function Decryption(ciphertext: string, key: string): Result<string> {
    var t := CleanText(ciphertext, false);
    if |t| == 0 then Ok("")
    else
      match PreparedKey(key, |t|)
      case Err(e) => Err(e)
      case Ok(k) => Ok(SubStream(t, k))
  }

  method Encrypt(plaintext: string, key: string) returns (r: Result<string>)
    ensures r == Encryption(plaintext, key)
  {
    var cleaned := CleanText(plaintext, false);
    if |cleaned| == 0 {
      return Ok("");
    }
    var prepared := PrepareKey(key, |cleaned|);
    if prepared.Err? {
      return Err(prepared.message);
    }
    var encrypted := AddLetters(cleaned, prepared.value);
    return Ok(encrypted);
  }

  method Decrypt(ciphertext: string, key: string) returns (r: Result<string>)
    ensures r == Decryption(ciphertext, key)
  {
    var cleaned := CleanText(ciphertext, false);
    if |cleaned| == 0 {
      return Ok("");
    }
    var prepared := PrepareKey(key, |cleaned|);
    if prepared.Err? {
      return Err(prepared.message);
    }
    var decrypted := SubtractLetters(cleaned, prepared.value);
    return Ok(decrypted);
  }

  /** The loop of `encrypt`: letter `i` of the text plus letter `i` of the key. */
  method AddLetters(cleaned: string, preparedKey: string) returns (encrypted: string)
    requires IsUpperText(cleaned) && IsUpperText(preparedKey) && |preparedKey| >= |cleaned|
    ensures encrypted == AddStream(cleaned, preparedKey)
  {
    encrypted := "";
    for i := 0 to |cleaned|
      invariant encrypted == AddStream(cleaned[..i], preparedKey)
    {
      var c := cleaned[i];
      if IsUpperLetter(c) {
        var textIndex := Index(c);
        var keyIndex := Index(preparedKey[i]);
        var encryptedIndex := (textIndex + keyIndex) % SIZE;
        encrypted := encrypted + [Letter(encryptedIndex)];
      }
    }
    assert cleaned[..|cleaned|] == cleaned;
  }

  /** The loop of `decrypt`: letter `i` of the text minus letter `i` of the key. */
  method SubtractLetters(cleaned: string, preparedKey: string) returns (decrypted: string)
    requires IsUpperText(cleaned) && IsUpperText(preparedKey) && |preparedKey| >= |cleaned|
    ensures decrypted == SubStream(cleaned, preparedKey)
  {
    decrypted := "";
    for i := 0 to |cleaned|
      invariant decrypted == SubStream(cleaned[..i], preparedKey)
    {
      var c := cleaned[i];
      if IsUpperLetter(c) {
        var textIndex := Index(c);
        var keyIndex := Index(preparedKey[i]);
        var decryptedIndex := (textIndex - keyIndex) % SIZE;
        decrypted := decrypted + [Letter(decryptedIndex)];
      }
    }
    assert cleaned[..|cleaned|] == cleaned;
  }

  // ---------------------------------------------------------------------------
  // Properties

  /** The prepared key has the requested length, consists of letters, and
      letter `i` is letter `i mod |k|` of the cleaned key. */
  lemma {:induction false} PreparedKeyShape(key: string, n: nat)
    requires |CleanText(key, false)| > 0
    ensures PreparedKey(key, n).Ok?
    ensures |PreparedKey(key, n).value| == n && IsUpperText(PreparedKey(key, n).value)
    ensures forall i :: 0 <= i < n ==>
      PreparedKey(key, n).value[i] == CleanText(key, false)[i % |CleanText(key, false)|]
  {
  }

  /** A text with no letters encrypts and decrypts to the empty string, even
      under a key with no letters. */
  lemma {:induction false} EmptyText(text: string, key: string)
    requires CleanText(text, false) == ""
    ensures Encryption(text, key) == Ok("") && Decryption(text, key) == Ok("")
  {
  }

  /** A key with no letters is refused as soon as there is a letter to encrypt. */
  lemma {:induction false} EmptyKey(text: string, key: string)
    requires CleanText(text, false) != "" && CleanText(key, false) == ""
    ensures Encryption(text, key) == Err(EMPTY_KEY_ERROR)
    ensures Decryption(text, key) == Err(EMPTY_KEY_ERROR)
  {
  }

  /** `decrypt(encrypt(t, key), key) == clean_text(t)` */
  lemma {:induction false} DecryptEncrypt(plaintext: string, key: string)
    requires Encryption(plaintext, key).Ok?
    ensures Decryption(Encryption(plaintext, key).value, key) == Ok(CleanText(plaintext, false))
  {
    var t := CleanText(plaintext, false);
    if |t| > 0 {
      var k := PreparedKey(key, |t|).value;
      PreparedKeyShape(key, |t|);
      var c := AddStream(t, k);
      CleanTextOfUpper(c);
      StreamRoundTrip(t, k);
    }
  }

  /** `encrypt(decrypt(c, key), key) == clean_text(c)` */
  lemma {:induction false} EncryptDecrypt(ciphertext: string, key: string)
    requires Decryption(ciphertext, key).Ok?
    ensures Encryption(Decryption(ciphertext, key).value, key) == Ok(CleanText(ciphertext, false))
  {
    var t := CleanText(ciphertext, false);
    if |t| > 0 {
      var k := PreparedKey(key, |t|).value;
      PreparedKeyShape(key, |t|);
      var p := SubStream(t, k);
      CleanTextOfUpper(p);
      StreamRoundTrip(t, k);
    }
  }

  /** A key of one letter `c` is the shift cipher with shift `index(c)`. */
  lemma {:induction false} OneLetterKeyIsShift(plaintext: string, key: string, c: char)
    requires CleanText(key, false) == [c]
    ensures IsUpperLetter(c)
    ensures Encryption(plaintext, key) == Ok(ShiftCipher.Shifted(CleanText(plaintext, false), Index(c)))
  {
    assert IsUpperLetter(CleanText(key, false)[0]);
    var t := CleanText(plaintext, false);
    if |t| > 0 {
      var k := Repeated([c], |t|);
      forall i | 0 <= i < |t| ensures k[i] == c {
        ModSmall(0, 1);
        assert i % 1 == 0 by { ModAddMultiple(i, 0, 1); }
      }
      assert AddStream(t, k) == ShiftCipher.Shifted(t, Index(c));
    }
  }

  /** A key written twice encrypts exactly like the key itself. */
  lemma {:induction false} DoubledKey(plaintext: string, key: string)
    ensures Encryption(plaintext, key + key) == Encryption(plaintext, key)
  {
    CleanTextAppend(key, key, false);
    var k := CleanText(key, false);
    var t := CleanText(plaintext, false);
    if |t| > 0 && |k| > 0 {
      RepeatedDoubled(k, |t|);
    }
  }

  lemma {:induction false} RepeatedDoubled(k: string, n: nat)
    requires |k| > 0
    ensures Repeated(k + k, n) == Repeated(k, n)
  {
    forall i | 0 <= i < n ensures (k + k)[i % (2 * |k|)] == k[i % |k|] {
      var r := i % (2 * |k|);
      DoubledRemainder(i, |k|);
      assert (k + k)[r] == k[r % |k|] by {
        if r >= |k| {
          assert (k + k)[r] == k[r - |k|];
          ModAddMultiple(1, r - |k|, |k|);
          ModSmall(r - |k|, |k|);
        } else {
          ModSmall(r, |k|);
        }
      }
    }
  }

  /** `(i mod 2L) mod L == i mod L` */
  lemma {:induction false} DoubledRemainder(i: nat, len: nat)
    requires len > 0
    ensures (i % (2 * len)) % len == i % len
  {
    var q, r := i / (2 * len), i % (2 * len);
    assert i == len * (2 * q) + r;
    ModAddMultiple(2 * q, r, len);
  }

  /** ATTACKATDAWN under LEMON is LXFOPVEFRNHR. */
  lemma {:induction false} LemonExample()
    ensures AddStream("ATTACKATDAWN", Repeated("LEMON", 12)) == "LXFOPVEFRNHR"
  {
    LemonRepeated();
    LemonAdded();
  }

  /** `encrypt("ATTACKATDAWN", "LEMON")` is LXFOPVEFRNHR. */
  lemma {:induction false} LemonEncryptionExample()
    ensures Encryption("ATTACKATDAWN", "LEMON") == Ok("LXFOPVEFRNHR")
  {
    CleanTextOfUpper("ATTACKATDAWN");
    CleanTextOfUpper("LEMON");
    LemonExample();
  }

  lemma {:induction false} LemonRepeated()
    ensures Repeated("LEMON", 12) == "LEMONLEMONLE"
  {
    var k := Repeated("LEMON", 12);
    assert k[0] == 'L' && k[1] == 'E' && k[2] == 'M' && k[3] == 'O' && k[4] == 'N' && k[5] == 'L';
    assert k[6] == 'E' && k[7] == 'M' && k[8] == 'O' && k[9] == 'N' && k[10] == 'L' && k[11] == 'E';
  }

  lemma {:induction false} LemonAdded()
    ensures AddStream("ATTACKATDAWN", "LEMONLEMONLE") == "LXFOPVEFRNHR"
  {
    AddStreamAppend("ATTACK", "ATDAWN", "LEMONL", "EMONLE");
    assert "ATTACK" + "ATDAWN" == "ATTACKATDAWN";
    assert "LEMONL" + "EMONLE" == "LEMONLEMONLE";
    LemonFirstHalf();
    LemonSecondHalf();
    assert "LXFOPV" + "EFRNHR" == "LXFOPVEFRNHR";
  }

  lemma {:induction false} LemonFirstHalf()
    ensures AddStream("ATTACK", "LEMONL") == "LXFOPV"
  {
    var r := AddStream("ATTACK", "LEMONL");
    assert r[0] == 'L' && r[1] == 'X' && r[2] == 'F' && r[3] == 'O' && r[4] == 'P' && r[5] == 'V';
  }

  lemma {:induction false} LemonSecondHalf()
    ensures AddStream("ATDAWN", "EMONLE") == "EFRNHR"
  {
    var r := AddStream("ATDAWN", "EMONLE");
    assert r[0] == 'E' && r[1] == 'F' && r[2] == 'R' && r[3] == 'N' && r[4] == 'H' && r[5] == 'R';
  }

  /** Adding key streams works piece by piece. */
  lemma {:induction false} AddStreamAppend(a: string, b: string, ka: string, kb: string)
    requires IsUpperText(a) && IsUpperText(b) && IsUpperText(ka) && IsUpperText(kb)
    requires |ka| == |a| && |kb| >= |b|
    ensures AddStream(a + b, ka + kb) == AddStream(a, ka) + AddStream(b, kb)
  {
  }
}
