/** The affine cipher: letter `x` becomes `(a*x + b) mod 26`, for an `a`
    coprime with 26 so that the map can be undone. */
module AffineCipher {
  import opened Builtins
  import opened NumberTheory
  import opened BaseCipher
  import ShiftCipher

  const FORMAT_ERROR: string := "Affine cipher key must be in format 'a,b'"
  const NUMBER_ERROR: string := "Affine cipher key must contain two integers separated by comma"

  datatype AffineKey = AffineKey(a: int, b: int)

  /** `math.gcd(a, 26)`, which is taken of the absolute value. */
  function GcdWithSize(a: int): nat {
    Gcd(if a < 0 then -a else a, SIZE)
  }

  function CoprimeError(a: int): string {
    "'a' value (" + IntToString(a) + ") must be coprime with 26"
  }

  /** `_parse_key`: exactly two comma-separated integers, the first coprime
      with 26. A failed `int()` is reported as `NUMBER_ERROR`; the other two
      errors pass through the handler unchanged. */
  function ParseKey(key: string): Result<AffineKey> {
    var parts := Split(key, ',');
    if |parts| != 2 then Err(FORMAT_ERROR)
    else
      match (ParseInt(parts[0]), ParseInt(parts[1]))
      case (Some(a), Some(b)) =>
        if GcdWithSize(a) != 1 then Err(CoprimeError(a)) else Ok(AffineKey(a, b))
      case _ => Err(NUMBER_ERROR)
  }

  /** Every letter `x` replaced by `(a*x + b) mod 26`. */
  function AffineEncrypted(text: string, a: int, b: int): (r: string)
    requires IsUpperText(text)
    ensures |r| == |text| && IsUpperText(r)
  {
    seq(|text|, i requires 0 <= i < |text| => Letter((a * Index(text[i]) + b) % SIZE))
  }

  /** Every letter `y` replaced by `(inv*(y - b)) mod 26`. */
  function AffineDecrypted(text: string, inv: int, b: int): (r: string)
    requires IsUpperText(text)
    ensures |r| == |text| && IsUpperText(r)
  {
    seq(|text|, i requires 0 <= i < |text| => Letter((inv * (Index(text[i]) - b)) % SIZE))
  }

  /** An accepted `a` has an inverse modulo 26. */
  function Inverse(k: AffineKey): (inv: int)
    requires GcdWithSize(k.a) == 1
    ensures 0 <= inv < SIZE && (k.a * inv) % SIZE == 1
  {
    GcdAbsMod(k.a, SIZE);
    ModInverse(k.a, SIZE).value
  }

  /** `AffineCipher.encrypt` */
  function Encryption(plaintext: string, key: string): Result<string> {
    match ParseKey(key)
    case Err(e) => Err(e)
    case Ok(k) => Ok(AffineEncrypted(CleanText(plaintext, false), k.a, k.b))
  }

  /** `AffineCipher.decrypt`: `mod_inverse(a, 26)` always succeeds after
      `_parse_key` has accepted `a`. */
  function Decryption(ciphertext: string, key: string): Result<string> {
    match ParseKey(key)
    case Err(e) => Err(e)
    case Ok(k) => Ok(AffineDecrypted(CleanText(ciphertext, false), Inverse(k), k.b))
  }

  method Encrypt(plaintext: string, key: string) returns (r: Result<string>)
    ensures r == Encryption(plaintext, key)
  {
    var parsed := ParseKey(key);
    if parsed.Err? {
      return Err(parsed.message);
    }
    var cleaned := CleanText(plaintext, false);
    var encrypted := EncryptLetters(cleaned, parsed.value.a, parsed.value.b);
    return Ok(encrypted);
  }

  /** The loop of `encrypt` over the cleaned text. */
  method EncryptLetters(cleaned: string, a: int, b: int) returns (encrypted: string)
    requires IsUpperText(cleaned)
    ensures encrypted == AffineEncrypted(cleaned, a, b)
  {
    encrypted := "";
    for i := 0 to |cleaned|
      invariant encrypted == AffineEncrypted(cleaned[..i], a, b)
    {
      var c := cleaned[i];
      if IsUpperLetter(c) {
        var x := Index(c);
        var encryptedIndex := (a * x + b) % SIZE;
        encrypted := encrypted + [Letter(encryptedIndex)];
      }
    }
    assert cleaned[..|cleaned|] == cleaned;
  }

  method Decrypt(ciphertext: string, key: string) returns (r: Result<string>)
    ensures r == Decryption(ciphertext, key)
  {
    var parsed := ParseKey(key);
    if parsed.Err? {
      return Err(parsed.message);
    }
    var aInv := Inverse(parsed.value);
    var cleaned := CleanText(ciphertext, false);
    var decrypted := DecryptLetters(cleaned, aInv, parsed.value.b);
    return Ok(decrypted);
  }

  /** The loop of `decrypt` over the cleaned text. */
  method DecryptLetters(cleaned: string, aInv: int, b: int) returns (decrypted: string)
    requires IsUpperText(cleaned)
    ensures decrypted == AffineDecrypted(cleaned, aInv, b)
  {
    decrypted := "";
    for i := 0 to |cleaned|
      invariant decrypted == AffineDecrypted(cleaned[..i], aInv, b)
    {
      var c := cleaned[i];
      if IsUpperLetter(c) {
        var y := Index(c);
        var decryptedIndex := (aInv * (y - b)) % SIZE;
        decrypted := decrypted + [Letter(decryptedIndex)];
      }
    }
    assert cleaned[..|cleaned|] == cleaned;
  }

  // ---------------------------------------------------------------------------
  // Properties

  /** `(a*x + b) mod 26` is undone by `inv*(y - b) mod 26`. */
  lemma {:induction false} LetterRoundTrip(a: int, inv: int, b: int, x: int)
    requires (a * inv) % SIZE == 1 && 0 <= x < SIZE
    ensures (inv * ((a * x + b) % SIZE - b)) % SIZE == x
  {
    var y := (a * x + b) % SIZE;
    CongruentMod(a * x + b, SIZE);
    CongruentAdd(y, a * x + b, -b, -b, SIZE);
    assert y - b == y + -b && a * x + b + -b == a * x;
    CongruentMul(inv, inv, y - b, a * x, SIZE);
    assert inv * (a * x) == (a * inv) * x;
    CongruentMod(a * inv, SIZE);
    CongruentMul((a * inv) % SIZE, a * inv, x, x, SIZE);
    ModSmall(x, SIZE);
  }

  /** `inv*(y - b) mod 26` is undone by `(a*x + b) mod 26`. */
  lemma {:induction false} LetterRoundTripBack(a: int, inv: int, b: int, y: int)
    requires (a * inv) % SIZE == 1 && 0 <= y < SIZE
    ensures (a * ((inv * (y - b)) % SIZE) + b) % SIZE == y
  {
    var x := (inv * (y - b)) % SIZE;
    CongruentMod(inv * (y - b), SIZE);
    CongruentMul(a, a, x, inv * (y - b), SIZE);
    assert a * (inv * (y - b)) == (a * inv) * (y - b);
    CongruentMod(a * inv, SIZE);
    CongruentMul((a * inv) % SIZE, a * inv, y - b, y - b, SIZE);
    CongruentAdd(a * x, y - b, b, b, SIZE);
    ModSmall(y, SIZE);
  }

  lemma {:induction false} DecryptedEncrypted(t: string, a: int, inv: int, b: int)
    requires IsUpperText(t) && (a * inv) % SIZE == 1
    ensures AffineDecrypted(CleanText(AffineEncrypted(t, a, b), false), inv, b) == t
  {
    var c := AffineEncrypted(t, a, b);
    CleanTextOfUpper(c);
    forall i | 0 <= i < |t| ensures AffineDecrypted(c, inv, b)[i] == t[i] {
      var x := Index(t[i]);
      var y := (a * x + b) % SIZE;
      assert Index(c[i]) == y;
      LetterRoundTrip(a, inv, b, x);
      assert Letter(x) == t[i];
    }
  }

  lemma {:induction false} EncryptedDecrypted(t: string, a: int, inv: int, b: int)
    requires IsUpperText(t) && (a * inv) % SIZE == 1
    ensures AffineEncrypted(CleanText(AffineDecrypted(t, inv, b), false), a, b) == t
  {
    var p := AffineDecrypted(t, inv, b);
    CleanTextOfUpper(p);
    forall i | 0 <= i < |t| ensures AffineEncrypted(p, a, b)[i] == t[i] {
      var y := Index(t[i]);
      var x := (inv * (y - b)) % SIZE;
      assert Index(p[i]) == x;
      LetterRoundTripBack(a, inv, b, y);
      assert Letter(y) == t[i];
    }
  }

  /** `decrypt(encrypt(t, key), key) == clean_text(t)` */
  lemma {:induction false} DecryptEncrypt(plaintext: string, key: string)
    requires Encryption(plaintext, key).Ok?
    ensures Decryption(Encryption(plaintext, key).value, key) == Ok(CleanText(plaintext, false))
  {
    var k := ParseKey(key).value;
    DecryptedEncrypted(CleanText(plaintext, false), k.a, Inverse(k), k.b);
  }

  /** `encrypt(decrypt(c, key), key) == clean_text(c)` */
  lemma {:induction false} EncryptDecrypt(ciphertext: string, key: string)
    requires Decryption(ciphertext, key).Ok?
    ensures Encryption(Decryption(ciphertext, key).value, key) == Ok(CleanText(ciphertext, false))
  {
    var k := ParseKey(key).value;
    EncryptedDecrypted(CleanText(ciphertext, false), k.a, Inverse(k), k.b);
  }

  /** `"a,b"` written from two integers parses back to them when `a` is
      coprime with 26, and is refused with the coprimality message otherwise. */
  lemma {:induction false} ParseKeyOfIntegers(a: int, b: int)
    ensures ParseKey(IntToString(a) + "," + IntToString(b)) ==
      if GcdWithSize(a) == 1 then Ok(AffineKey(a, b)) else Err(CoprimeError(a))
  {
    var sa, sb := IntToString(a), IntToString(b);
    assert ',' !in sa && ',' !in sb by {
      assert forall i :: 0 <= i < |sa| ==> IsDigit(sa[i]) || sa[i] == '-';
      assert forall i :: 0 <= i < |sb| ==> IsDigit(sb[i]) || sb[i] == '-';
    }
    assert sa + "," + sb == Join([sa, sb], ",");
    SplitJoin([sa, sb], ',');
    ParseIntToString(a);
    ParseIntToString(b);
  }

  /** A key with other than one comma is refused with the format message. */
  lemma {:induction false} ParseKeyCommaCount(key: string)
    requires |Split(key, ',')| != 2
    ensures ParseKey(key) == Err(FORMAT_ERROR)
  {
  }

  /** An `a` sharing a factor with 26 (an even number, or a multiple of 13)
      never makes a key. */
  lemma {:induction false} CommonFactorRefused(a: int, d: int)
    requires d > 1 && Divides(d, a) && Divides(d, SIZE)
    ensures GcdWithSize(a) != 1
  {
    var abs: nat := if a < 0 then -a else a;
    DividesNeg(d, a);
    GcdGreatest(abs, SIZE, d);
    ModSmall(1, d);
  }

  /** With `a = 1` the affine cipher is the shift cipher with key `b`. */
  lemma {:induction false} UnitFactorIsShift(plaintext: string, b: int)
    ensures Encryption(plaintext, IntToString(1) + "," + IntToString(b)) ==
      ShiftCipher.Encryption(plaintext, IntToString(b))
  {
    assert GcdWithSize(1) == 1;
    ParseKeyOfIntegers(1, b);
    ParseIntToString(b);
    var t := CleanText(plaintext, false);
    CongruentMod(b, SIZE);
    ShiftCipher.ShiftedCongruent(t, b, b % SIZE);
    assert AffineEncrypted(t, 1, b) == ShiftCipher.Shifted(t, b);
  }

  /** The key `1,0` gives back the cleaned text. */
  lemma {:induction false} UnitKeyIsIdentity(plaintext: string)
    ensures Encryption(plaintext, "1,0") == Ok(CleanText(plaintext, false))
  {
    assert IntToString(1) == "1" && IntToString(0) == "0";
    assert IntToString(1) + "," + IntToString(0) == "1,0";
    UnitFactorIsShift(plaintext, 0);
    ParseIntToString(0);
    ShiftCipher.ShiftedZero(CleanText(plaintext, false));
  }

  /** `(5, 8)` takes AFFINE to IHHWVC. */
  lemma {:induction false} AffineExample()
    ensures AffineEncrypted("AFFINE", 5, 8) == "IHHWVC"
  {
    var r := AffineEncrypted("AFFINE", 5, 8);
    assert r[0] == 'I' && r[1] == 'H' && r[2] == 'H' && r[3] == 'W' && r[4] == 'V' && r[5] == 'C';
  }

  /** `encrypt("AFFINE", "5,8")` is IHHWVC. */
  lemma {:induction false} AffineEncryptionExample()
    ensures Encryption("AFFINE", "5,8") == Ok("IHHWVC")
  {
    assert IntToString(5) == "5" && IntToString(8) == "8";
    assert IntToString(5) + "," + IntToString(8) == "5,8";
    CoprimeFromInverse(5, SIZE, 21);
    ParseKeyOfIntegers(5, 8);
    CleanTextOfUpper("AFFINE");
    AffineExample();
  }
}
