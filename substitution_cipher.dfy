/** The simple substitution cipher: the key is a rearrangement of the
    alphabet, and letter `i` of the alphabet is replaced by letter `i` of
    the key. */
module SubstitutionCipher {
  import opened Builtins
  import opened BaseCipher

  const LENGTH_ERROR: string := "Substitution key must be exactly 26 characters long"
  const REPEAT_ERROR: string := "Substitution key must contain each letter exactly once"
  const LETTER_ERROR: string := "Substitution key must contain only alphabetic characters"

  /** 26 distinct upper-case letters: a rearrangement of the alphabet. */
  predicate IsAlphabetPermutation(k: string) {
    |k| == SIZE && NoRepeats(k) && IsUpperText(k)
  }

  /** The key as `_validate_key` normalises it: upper-cased, spaces removed. */
  function NormalisedKey(key: string): string {
    RemoveChar(Upper(key), ' ')
  }

  /** `_validate_key`: the length, then the number of distinct characters,
      then that every character is a letter. */
  function ValidatedKey(key: string): Result<string> {
    var k := NormalisedKey(key);
    if |k| != SIZE then Err(LENGTH_ERROR)
    else if |Elems(k)| != SIZE then Err(REPEAT_ERROR)
    else if !IsUpperText(k) then Err(LETTER_ERROR)
    else Ok(k)
  }

  method ValidateKey(key: string) returns (r: Result<string>)
    ensures r == ValidatedKey(key)
  {
    var k := RemoveChar(Upper(key), ' ');
    if |k| != SIZE {
      return Err(LENGTH_ERROR);
    }
    if |Elems(k)| != SIZE {
      return Err(REPEAT_ERROR);
    }
    for i := 0 to |k|
      invariant IsUpperText(k[..i])
    {
      if !IsUpperLetter(k[i]) {
        return Err(LETTER_ERROR);
      }
      assert k[..i + 1] == k[..i] + [k[i]];
    }
    assert k[..|k|] == k;
    return Ok(k);
  }

  /** Every letter replaced by the key letter at its alphabet position. */
  function Substituted(text: string, k: string): (r: string)
    requires IsUpperText(text) && |k| == SIZE
    ensures |r| == |text|
  {
    seq(|text|, i requires 0 <= i < |text| => k[Index(text[i])])
  }

  /** Every character found in the key replaced by the alphabet letter at its
      first position in the key; characters not in the key are dropped. */
  function Unsubstituted(text: string, k: string): (r: string)
    requires |k| == SIZE
    ensures |r| <= |text|
  {
    if |text| == 0 then ""
    else
      var rest, c := Unsubstituted(text[..|text| - 1], k), text[|text| - 1];
      if c in k then rest + [Letter(IndexOf(k, c))] else rest
  }

  /** `SubstitutionCipher.encrypt` */
  function Encryption(plaintext: string, key: string): Result<string> {
    match ValidatedKey(key)
    case Err(e) => Err(e)
    case Ok(k) => Ok(Substituted(CleanText(plaintext, false), k))
  }

  /** `SubstitutionCipher.decrypt` */
  function Decryption(ciphertext: string, key: string): Result<string> {
    match ValidatedKey(key)
    case Err(e) => Err(e)
    case Ok(k) => Ok(Unsubstituted(CleanText(ciphertext, false), k))
  }

  method Encrypt(plaintext: string, key: string) returns (r: Result<string>)
    ensures r == Encryption(plaintext, key)
  {
    var validated := ValidateKey(key);
    if validated.Err? {
      return Err(validated.message);
    }
    var k := validated.value;
    var cleaned := CleanText(plaintext, false);
    var encrypted := "";
    for i := 0 to |cleaned|
      invariant encrypted == Substituted(cleaned[..i], k)
    {
      var c := cleaned[i];
      if IsUpperLetter(c) {
        var oldIndex := Index(c);
        encrypted := encrypted + [k[oldIndex]];
      }
    }
    assert cleaned[..|cleaned|] == cleaned;
    return Ok(encrypted);
  }

  method Decrypt(ciphertext: string, key: string) returns (r: Result<string>)
    ensures r == Decryption(ciphertext, key)
  {
    var validated := ValidateKey(key);
    if validated.Err? {
      return Err(validated.message);
    }
    var k := validated.value;
    var cleaned := CleanText(ciphertext, false);
    var decrypted := "";
    for i := 0 to |cleaned|
      invariant decrypted == Unsubstituted(cleaned[..i], k)
    {
      var c := cleaned[i];
      assert cleaned[..i + 1][..i] == cleaned[..i];
      if c in k {
        var oldIndex := IndexOf(k, c);
        decrypted := decrypted + [Letter(oldIndex)];
      }
    }
    assert cleaned[..|cleaned|] == cleaned;
    return Ok(decrypted);
  }

  // ---------------------------------------------------------------------------
  // Properties

  /** The checks accept exactly the keys that normalise to a rearrangement of
      the alphabet, and then the key used is the normalised one. */
  lemma {:induction false} ValidatedKeyIsPermutation(key: string)
    ensures ValidatedKey(key).Ok? <==> IsAlphabetPermutation(NormalisedKey(key))
    ensures ValidatedKey(key).Ok? ==> ValidatedKey(key).value == NormalisedKey(key)
  {
    ElemsCard(NormalisedKey(key));
  }

  /** The alphabet has no repeated letter. */
  lemma {:induction false} AlphabetIsPermutation()
    ensures IsAlphabetPermutation(ALPHABET)
  {
    AlphabetLetters();
    forall i, j | 0 <= i < j < |ALPHABET| ensures ALPHABET[i] != ALPHABET[j] {
      assert Index(ALPHABET[i]) == i && Index(ALPHABET[j]) == j;
    }
  }

  /** Pigeonhole: 26 distinct letters are all the letters. */
  lemma {:induction false} PermutationHasEveryLetter(k: string, c: char)
    requires IsAlphabetPermutation(k) && IsUpperLetter(c)
    ensures c in k
  {
    var letters := seq(SIZE, i requires 0 <= i < SIZE => Letter(i));
    assert NoRepeats(letters) by {
      forall i, j | 0 <= i < j < SIZE ensures letters[i] != letters[j] {
        assert Index(letters[i]) == i && Index(letters[j]) == j;
      }
    }
    ElemsCard(k);
    ElemsCard(letters);
    var all, used := Elems(letters), Elems(k);
    forall x | x in used ensures x in all {
      assert letters[Index(x)] == x;
    }
    assert all == used + (all - used);
    assert |all - used| == 0;
    assert letters[Index(c)] == c;
    assert c in all;
  }

  /** Looking a key letter up in the key gives back its position. */
  lemma IndexOfDistinct(k: string, i: nat)
    requires NoRepeats(k) && i < |k|
    ensures IndexOf(k, k[i]) == i
  {
  }

  lemma {:induction false} UnsubstituteSubstituted(t: string, k: string)
    requires IsUpperText(t) && IsAlphabetPermutation(k)
    ensures Unsubstituted(Substituted(t, k), k) == t
    decreases |t|
  {
    if |t| > 0 {
      var p := t[..|t| - 1];
      assert Substituted(t, k)[..|t| - 1] == Substituted(p, k);
      UnsubstituteSubstituted(p, k);
      IndexOfDistinct(k, Index(t[|t| - 1]));
      assert Letter(Index(t[|t| - 1])) == t[|t| - 1];
    }
  }

  lemma {:induction false} SubstituteUnsubstituted(t: string, k: string)
    requires IsUpperText(t) && IsAlphabetPermutation(k)
    ensures IsUpperText(Unsubstituted(t, k))
    ensures Substituted(Unsubstituted(t, k), k) == t
    decreases |t|
  {
    if |t| > 0 {
      var p, c := t[..|t| - 1], t[|t| - 1];
      SubstituteUnsubstituted(p, k);
      PermutationHasEveryLetter(k, c);
      var u := Unsubstituted(p, k);
      assert Unsubstituted(t, k) == u + [Letter(IndexOf(k, c))];
      assert Substituted(u + [Letter(IndexOf(k, c))], k)[..|u|] == Substituted(u, k);
    }
  }

  /** `decrypt(encrypt(t, key), key) == clean_text(t)` for a valid key. */
  lemma {:induction false} DecryptEncrypt(plaintext: string, key: string)
    requires Encryption(plaintext, key).Ok?
    ensures Decryption(Encryption(plaintext, key).value, key) == Ok(CleanText(plaintext, false))
  {
    var k := ValidatedKey(key).value;
    ValidatedKeyIsPermutation(key);
    var c := Substituted(CleanText(plaintext, false), k);
    assert IsUpperText(c);
    CleanTextOfUpper(c);
    UnsubstituteSubstituted(CleanText(plaintext, false), k);
  }

  /** `encrypt(decrypt(c, key), key) == clean_text(c)`: every letter is in a
      valid key, so decryption drops nothing. */
  lemma {:induction false} EncryptDecrypt(ciphertext: string, key: string)
    requires Decryption(ciphertext, key).Ok?
    ensures Encryption(Decryption(ciphertext, key).value, key) == Ok(CleanText(ciphertext, false))
  {
    var k := ValidatedKey(key).value;
    ValidatedKeyIsPermutation(key);
    SubstituteUnsubstituted(CleanText(ciphertext, false), k);
    CleanTextOfUpper(Unsubstituted(CleanText(ciphertext, false), k));
  }

  /** Encryption keeps the length of the cleaned text and is one-to-one:
      different letters never encrypt alike. */
  lemma {:induction false} SubstitutionInjective(k: string, a: char, b: char)
    requires IsAlphabetPermutation(k) && IsUpperLetter(a) && IsUpperLetter(b)
    ensures Substituted([a], k) == Substituted([b], k) <==> a == b
  {
    assert Substituted([a], k)[0] == k[Index(a)];
    assert Substituted([b], k)[0] == k[Index(b)];
    assert Letter(Index(a)) == a && Letter(Index(b)) == b;
  }

  /** The alphabet itself is the identity key. */
  lemma {:induction false} AlphabetKeyIsIdentity(plaintext: string)
    ensures Encryption(plaintext, ALPHABET) == Ok(CleanText(plaintext, false))
  {
    AlphabetNormalised();
    ValidatedKeyIsPermutation(ALPHABET);
    AlphabetLetters();
    var t := CleanText(plaintext, false);
    assert ValidatedKey(ALPHABET) == Ok(ALPHABET);
    forall i | 0 <= i < |t| ensures Substituted(t, ALPHABET)[i] == t[i] {
      assert ALPHABET[Index(t[i])] == Letter(Index(t[i])) == t[i];
    }
    assert Substituted(t, ALPHABET) == t;
  }

  lemma {:induction false} AlphabetNormalised()
    ensures NormalisedKey(ALPHABET) == ALPHABET
    ensures IsAlphabetPermutation(ALPHABET)
  {
    AlphabetIsPermutation();
    var u := Upper(ALPHABET);
    forall i | 0 <= i < |ALPHABET| ensures u[i] == ALPHABET[i] {
      assert IsUpperLetter(ALPHABET[i]);
    }
    assert u == ALPHABET;
    assert ' ' !in ALPHABET;
    RemoveCharAbsent(ALPHABET, ' ');
  }
}
