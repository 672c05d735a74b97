/** `CryptoUtils`: the greatest common divisor loop, the key validator that
    the web front end calls before encrypting, the random key generator and
    the letter frequency analysis. */
module CryptoUtils {
  import opened Builtins
  import opened NumberTheory
  import opened BaseCipher
  import SubstitutionCipher
  import AffineCipher
  import HillCipher
  import ShiftCipher
  import VigenereCipher
  import PermutationCipher
  import PlayfairCipher

  // ---------------------------------------------------------------------------
  // gcd

  function Abs(x: int): nat { if x < 0 then -x else x }

  /** Python's `a // b`, rounded towards minus infinity. */
  function FloorDiv(a: int, b: int): int
    requires b != 0
  {
    if b > 0 then a / b else (-a) / (-b)
  }

  /** Python's `a % b`, whose result takes the sign of `b`. */
  function FloorMod(a: int, b: int): (r: int)
    requires b != 0
    ensures Abs(r) < Abs(b)
    ensures b > 0 ==> r == a % b
    ensures r == a - b * FloorDiv(a, b)
  {
    if b > 0 then a % b else -((-a) % (-b))
  }

  lemma DividesAbs(d: int, x: int)
    requires d > 0
    ensures Divides(d, Abs(x)) <==> Divides(d, x)
  {
    DividesNeg(d, x);
  }

  /** The common divisors of `a` and `b` are those of `b` and `a - b*q`. */
  lemma StepDivisors(d: int, a: int, b: int, q: int)
    requires d > 0
    ensures (Divides(d, a) && Divides(d, b)) <==> (Divides(d, b) && Divides(d, a - b * q))
  {
    if Divides(d, a) && Divides(d, b) {
      DividesLinear(d, a, b, 1, -q);
      assert a * 1 + b * -q == a - b * q;
    }
    if Divides(d, b) && Divides(d, a - b * q) {
      DividesLinear(d, a - b * q, b, 1, q);
      assert (a - b * q) * 1 + b * q == a;
    }
  }

  /** Two pairs with the same common divisors have the same gcd. */
  lemma SameGcd(a: nat, b: nat, c: nat, e: nat)
    requires a > 0 || b > 0
    requires c > 0 || e > 0
    requires forall d :: d > 0 ==> ((Divides(d, a) && Divides(d, b)) <==> (Divides(d, c) && Divides(d, e)))
    ensures Gcd(a, b) == Gcd(c, e)
  {
    GcdDivides(a, b);
    GcdDivides(c, e);
    GcdGreatest(a, b, Gcd(c, e));
    GcdGreatest(c, e, Gcd(a, b));
    DividesAntisymmetric(Gcd(a, b), Gcd(c, e));
  }

  /** One step of Euclid's loop keeps the common divisors, so it keeps the gcd
      of the absolute values. */
  lemma GcdLoopStep(a: int, b: int)
    requires b != 0
    ensures Gcd(Abs(b), Abs(FloorMod(a, b))) == Gcd(Abs(a), Abs(b))
  {
    var q := FloorDiv(a, b);
    var r := FloorMod(a, b);
    forall d | d > 0
      ensures (Divides(d, Abs(a)) && Divides(d, Abs(b))) <==>
              (Divides(d, Abs(b)) && Divides(d, Abs(r)))
    {
      DividesAbs(d, a);
      DividesAbs(d, b);
      DividesAbs(d, r);
      StepDivisors(d, a, b, q);
    }
    SameGcd(Abs(a), Abs(b), Abs(b), Abs(r));
  }

  /** `CryptoUtils.gcd(a, b)`: Euclid's loop on Python integers. Its value is
      the greatest common divisor up to sign, and exactly the greatest common
      divisor when `b` is positive or both arguments are non-negative; with
      `b = 0` it is `a` itself. */
  method GcdLoop(a0: int, b0: int) returns (g: int)
    ensures Abs(g) == Gcd(Abs(a0), Abs(b0))
    ensures b0 > 0 ==> g == Gcd(Abs(a0), b0)
    ensures a0 >= 0 && b0 >= 0 ==> g == Gcd(a0, b0)
    ensures b0 == 0 ==> g == a0
  {
    var a, b := a0, b0;
    while b != 0
      invariant Gcd(Abs(a), Abs(b)) == Gcd(Abs(a0), Abs(b0))
      invariant b0 > 0 ==> b >= 0 && (b == 0 ==> a >= 0)
      invariant a0 >= 0 && b0 >= 0 ==> a >= 0 && b >= 0
      invariant b0 == 0 ==> a == a0 && b == 0
      decreases Abs(b)
    {
      GcdLoopStep(a, b);
      a, b := b, FloorMod(a, b);
    }
    g := a;
  }

  /** The affine check of the validator is the affine cipher's own. */
  lemma GcdLoopAffine(a: int)
    ensures Gcd(Abs(a), SIZE) == AffineCipher.GcdWithSize(a)
  {
  }

  // ---------------------------------------------------------------------------
  // validate_key

  const FORMAT_ERROR: string := "Invalid key format"
  const SHIFT_RANGE_ERROR: string := "Shift value must be between 0 and 25"
  const SUBSTITUTION_ERROR: string := "Substitution key must contain 26 unique letters"
  const AFFINE_FORMAT_ERROR: string := "Affine key must be in format \"a,b\""
  const LETTERS_ERROR: string := "Key must contain only letters"
  const MATRIX_SIZE_ERROR: string := "Hill key must contain 4 numbers for 2x2 matrix"
  const DETERMINANT_ERROR: string := "Matrix determinant must be coprime with 26"

  /** The dictionary `{'valid': ..., 'message': ...}`. */
  datatype KeyCheck = KeyCheck(valid: bool, message: string)

  /** The cipher types `validate_key` and `generate_random_key` tell apart;
      any other name, the one-time pad's among them, is `OtherType`. */
  datatype CipherType = Shift | Substitution | Affine | Vigenere | Hill | Permutation | Playfair | OtherType

  /** The `cipher_type == ...` comparisons, which are exact. */
  function TypeOf(cipherType: string): CipherType {
    if cipherType == "shift" then Shift
    else if cipherType == "substitution" then Substitution
    else if cipherType == "affine" then Affine
    else if cipherType == "vigenere" then Vigenere
    else if cipherType == "hill" then Hill
    else if cipherType == "permutation" then Permutation
    else if cipherType == "playfair" then Playfair
    else OtherType
  }

  /** The cipher types whose keys are checked only for being letters. */
  predicate IsLetterKeyType(cipherType: string) {
    TypeOf(cipherType) in {Vigenere, Permutation, Playfair}
  }

  /** The cipher types `validate_key` knows about. */
  predicate IsCheckedType(cipherType: string) {
    TypeOf(cipherType) != OtherType
  }

  /** `key.replace(' ', '').isalpha()` with `key` non-empty. */
  predicate IsLetterKey(key: string) {
    |key| > 0 && IsAlphaString(RemoveChar(key, ' '))
  }

  /** The key matrix `[[e[0], e[1]], [e[2], e[3]]]`. */
  function MatrixOf(e: seq<int>): HillCipher.Matrix
    requires |e| == 4
  {
    HillCipher.Matrix(e[0], e[1], e[2], e[3])
  }

  /** The shift branch: `int(key)` must lie from 0 to 25. */
  function ShiftCheck(key: string): KeyCheck {
    match ParseInt(key)
    case None => KeyCheck(false, FORMAT_ERROR)
    case Some(n) => if 0 <= n <= 25 then KeyCheck(true, "") else KeyCheck(false, SHIFT_RANGE_ERROR)
  }

  /** The substitution branch: 26 characters, all different, once upper-cased
      and stripped of spaces. */
  function SubstitutionCheck(key: string): KeyCheck {
    var k := SubstitutionCipher.NormalisedKey(key);
    if |k| == 26 && |Elems(k)| == 26 then KeyCheck(true, "")
    else KeyCheck(false, SUBSTITUTION_ERROR)
  }

  /** The affine branch: two comma-separated integers, the first coprime with 26. */
  function AffineCheck(key: string): KeyCheck {
    var parts := Split(key, ',');
    if |parts| != 2 then KeyCheck(false, AFFINE_FORMAT_ERROR)
    else
      match (ParseInt(parts[0]), ParseInt(parts[1]))
      case (Some(a), Some(_)) =>
        if Gcd(Abs(a), SIZE) == 1 then KeyCheck(true, "")
        else KeyCheck(false, AffineCipher.CoprimeError(a))
      case _ => KeyCheck(false, FORMAT_ERROR)
  }

  /** The branch of the Vigenère, permutation and Playfair ciphers. */
  function LettersCheck(key: string): KeyCheck {
    if IsLetterKey(key) then KeyCheck(true, "") else KeyCheck(false, LETTERS_ERROR)
  }

  /** The Hill branch: four comma-separated integers whose determinant, taken
      modulo 26, is coprime with 26. */
  function HillCheck(key: string): KeyCheck {
    var parts := Split(key, ',');
    if |parts| != 4 then KeyCheck(false, MATRIX_SIZE_ERROR)
    else
      match HillCipher.ParseAll(parts)
      case None => KeyCheck(false, FORMAT_ERROR)
      case Some(e) =>
        if Gcd(HillCipher.Det(MatrixOf(e)) % SIZE, SIZE) == 1 then KeyCheck(true, "")
        else KeyCheck(false, DETERMINANT_ERROR)
  }

  /** The check `validate_key` makes of a key for a cipher of the given kind. */
  function CheckOf(kind: CipherType, key: string): (r: KeyCheck)
    ensures r.valid ==> r.message == "" && kind != OtherType
    ensures kind != OtherType ==> (r.valid <==> r.message == "")
  {
    match kind
    case Shift => ShiftCheck(key)
    case Substitution => SubstitutionCheck(key)
    case Affine => AffineCheck(key)
    case Vigenere => LettersCheck(key)
    case Permutation => LettersCheck(key)
    case Playfair => LettersCheck(key)
    case Hill => HillCheck(key)
    case OtherType => KeyCheck(false, "")
  }

  /** `validate_key(cipher_type, key)`. A failed `int()` is the `ValueError`
      reported as `FORMAT_ERROR`; a cipher type it does not know (the one-time
      pad among them) is invalid with an empty message. */
  function Validation(cipherType: string, key: string): (r: KeyCheck)
    ensures r.valid ==> r.message == "" && IsCheckedType(cipherType)
    ensures IsCheckedType(cipherType) ==> (r.valid <==> r.message == "")
  {
    CheckOf(TypeOf(cipherType), key)
  }

  /** `validate_key`: the result dictionary starts invalid with an empty
      message, and each branch sets one of its two entries. */
  method ValidateKey(cipherType: string, key: string) returns (result: KeyCheck)
    ensures result == Validation(cipherType, key)
  {
    result := KeyCheck(false, "");
    var kind := TypeOf(cipherType);
    if kind == Shift {
      var num := ParseInt(key);
      if num.None? {
        result := result.(message := FORMAT_ERROR);
      } else if 0 <= num.value <= 25 {
        result := result.(valid := true);
      } else {
        result := result.(message := SHIFT_RANGE_ERROR);
      }
      assert result == ShiftCheck(key);
    } else if kind == Substitution {
      var k := SubstitutionCipher.NormalisedKey(key);
      if |k| == 26 && |Elems(k)| == 26 {
        result := result.(valid := true);
      } else {
        result := result.(message := SUBSTITUTION_ERROR);
      }
      assert result == SubstitutionCheck(key);
    } else if kind == Affine {
      result := CheckAffine(key);
    } else if kind in {Vigenere, Permutation, Playfair} {
      if |key| > 0 && IsAlphaString(RemoveChar(key, ' ')) {
        result := result.(valid := true);
      } else {
        result := result.(message := LETTERS_ERROR);
      }
      assert result == LettersCheck(key);
    } else if kind == Hill {
      result := CheckHill(key);
    }
  }

  /** The affine branch of `validate_key`. */
  method CheckAffine(key: string) returns (result: KeyCheck)
    ensures result == AffineCheck(key)
  {
    result := KeyCheck(false, "");
    var parts := Split(key, ',');
    if |parts| == 2 {
      var a, b := ParseInt(parts[0]), ParseInt(parts[1]);
      if a.None? || b.None? {
        result := result.(message := FORMAT_ERROR);
      } else {
        var g := GcdLoop(a.value, 26);
        if g == 1 {
          result := result.(valid := true);
        } else {
          result := result.(message := AffineCipher.CoprimeError(a.value));
        }
      }
    } else {
      result := result.(message := AFFINE_FORMAT_ERROR);
    }
  }

  /** The Hill branch of `validate_key`. */
  method CheckHill(key: string) returns (result: KeyCheck)
    ensures result == HillCheck(key)
  {
    result := KeyCheck(false, "");
    var parts := Split(key, ',');
    if |parts| == 4 {
      var matrix := ParseParts(parts);
      if matrix.None? {
        result := result.(message := FORMAT_ERROR);
      } else {
        var m := matrix.value;
        var det := (m[0] * m[3] - m[1] * m[2]) % 26;
        var g := GcdLoop(det, 26);
        if g == 1 {
          result := result.(valid := true);
        } else {
          result := result.(message := DETERMINANT_ERROR);
        }
      }
    } else {
      result := result.(message := MATRIX_SIZE_ERROR);
    }
  }

  /** `[int(x.strip()) for x in parts]`, stopping at the first piece that is
      not an integer. */
  method ParseParts(parts: seq<string>) returns (r: Option<seq<int>>)
    ensures r == HillCipher.ParseAll(parts)
  {
    var values: seq<int> := [];
    for i := 0 to |parts|
      invariant HillCipher.ParseAll(parts[..i]) == Some(values)
    {
      var x := ParseInt(parts[i]);
      if x.None? {
        return None;
      }
      assert parts[..i + 1][..i] == parts[..i];
      values := values + [x.value];
    }
    assert parts[..|parts|] == parts;
    return Some(values);
  }

  // ---------------------------------------------------------------------------
  // What validate_key accepts

  /** A shift key is valid exactly when it is an integer from 0 to 25. */
  lemma ShiftValid(key: string)
    ensures Validation("shift", key).valid <==>
      ParseInt(key).Some? && 0 <= ParseInt(key).value <= 25
    ensures ParseInt(key).None? ==> Validation("shift", key).message == FORMAT_ERROR
  {
  }

  /** The shift cipher itself takes any integer and reduces it modulo 26, so
      the validator refuses keys the cipher accepts, such as 26. */
  lemma ShiftValidatorStricter(plaintext: string)
    ensures !Validation("shift", "26").valid
    ensures ShiftCipher.Encryption(plaintext, "26") == ShiftCipher.Encryption(plaintext, "0")
  {
    assert ParseInt("26") == Some(26) by {
      assert "26" == IntToString(26);
      ParseIntToString(26);
    }
    assert ParseInt("0") == Some(0) by {
      assert "0" == IntToString(0);
      ParseIntToString(0);
    }
  }

  /** A substitution key is valid exactly when, upper-cased and without
      spaces, it has 26 characters and no repeated one; nothing requires them
      to be letters. */
  lemma SubstitutionValid(key: string)
    ensures Validation("substitution", key).valid <==>
      |SubstitutionCipher.NormalisedKey(key)| == 26 && NoRepeats(SubstitutionCipher.NormalisedKey(key))
  {
    ElemsCard(SubstitutionCipher.NormalisedKey(key));
  }

  /** Every key the substitution cipher accepts passes the validator. */
  lemma SubstitutionAcceptedIsValid(key: string)
    requires SubstitutionCipher.ValidatedKey(key).Ok?
    ensures Validation("substitution", key).valid
  {
    SubstitutionValid(key);
    SubstitutionCipher.ValidatedKeyIsPermutation(key);
  }

  /** The converse fails: 26 distinct characters that are not all letters pass
      the validator and are refused by the cipher. The key is the alphabet
      with `Z` replaced by `1`. */
  lemma SubstitutionValidatorLooser()
    ensures Validation("substitution", ALPHABET[..25] + "1").valid
    ensures SubstitutionCipher.ValidatedKey(ALPHABET[..25] + "1") ==
      Err(SubstitutionCipher.LETTER_ERROR)
  {
    var key := ALPHABET[..25] + "1";
    SubstitutionCipher.AlphabetIsPermutation();
    assert IsUpperText(key[..25]) && key[..25] == ALPHABET[..25];
    assert NoRepeats(key) by {
      forall i, j | 0 <= i < j < |key| ensures key[i] != key[j] {
        if j < 25 {
          assert key[i] == ALPHABET[i] && key[j] == ALPHABET[j];
        }
      }
    }
    NormalisedNoLower(key);
    SubstitutionValid(key);
    assert !IsUpperLetter(key[25]);
  }

  /** Upper-casing and removing spaces leaves a string without lower-case
      letters and spaces unchanged. */
  lemma NormalisedNoLower(k: string)
    requires forall i :: 0 <= i < |k| ==> !IsLowerLetter(k[i]) && k[i] != ' '
    ensures SubstitutionCipher.NormalisedKey(k) == k
  {
    var u := Upper(k);
    assert u == k;
    RemoveCharAbsent(k, ' ');
  }

  /** An affine key is valid exactly when the affine cipher accepts it. */
  lemma AffineValid(key: string)
    ensures Validation("affine", key).valid <==> AffineCipher.ParseKey(key).Ok?
    ensures |Split(key, ',')| != 2 ==> Validation("affine", key).message == AFFINE_FORMAT_ERROR
  {
  }

  /** `s.replace(c, '')` keeps exactly the characters other than `c`. */
  lemma {:induction false} RemoveCharMembers(s: string, c: char)
    ensures forall x :: x in RemoveChar(s, c) <==> x in s && x != c
    decreases |s|
  {
    if |s| > 0 {
      var p := s[..|s| - 1];
      RemoveCharMembers(p, c);
      assert s == p + [s[|s| - 1]];
    }
  }

  /** A letters-only key is valid exactly when it has only letters and
      spaces, and at least one letter. */
  lemma LetterKeyValid(key: string)
    ensures IsLetterKey(key) <==>
      (exists i :: 0 <= i < |key| && IsAlpha(key[i])) &&
      forall i :: 0 <= i < |key| ==> IsAlpha(key[i]) || key[i] == ' '
  {
    var r := RemoveChar(key, ' ');
    RemoveCharMembers(key, ' ');
    if IsLetterKey(key) {
      assert r[0] in r;
      var i :| 0 <= i < |key| && key[i] == r[0];
      assert IsAlpha(key[i]);
      forall j | 0 <= j < |key| ensures IsAlpha(key[j]) || key[j] == ' ' {
        if key[j] != ' ' {
          assert key[j] in r;
          var k :| 0 <= k < |r| && r[k] == key[j];
        }
      }
    }
    if (exists i :: 0 <= i < |key| && IsAlpha(key[i])) &&
       forall i :: 0 <= i < |key| ==> IsAlpha(key[i]) || key[i] == ' ' {
      var i :| 0 <= i < |key| && IsAlpha(key[i]);
      assert key[i] in r;
      forall k | 0 <= k < |r| ensures IsAlpha(r[k]) {
        assert r[k] in key;
      }
    }
  }

  /** A valid letters-only key has a letter, so the Vigenère, permutation and
      Playfair ciphers all accept it. */
  lemma LetterKeyAccepted(plaintext: string, key: string)
    requires IsLetterKey(key)
    ensures VigenereCipher.Encryption(plaintext, key).Ok?
    ensures PermutationCipher.Encryption(plaintext, key).Ok?
    ensures PlayfairCipher.Encryption(plaintext, key).Ok?
  {
    LetterKeyValid(key);
    var i :| 0 <= i < |key| && IsAlpha(key[i]);
    CleanTextHasLetter(key, i);
  }

  /** A string with a letter cleans to a non-empty text. */
  lemma {:induction false} CleanTextHasLetter(s: string, i: nat)
    requires i < |s| && IsAlpha(s[i])
    ensures |CleanText(s, false)| > 0
    decreases |s|
  {
    if i < |s| - 1 {
      CleanTextHasLetter(s[..|s| - 1], i);
    }
  }

  /** A Hill key is valid exactly when the Hill cipher accepts it. */
  lemma HillValid(key: string)
    ensures Validation("hill", key).valid <==> HillCipher.ParseKeyMatrix(key).Ok?
  {
  }

  /** The one-time pad has no branch in the validator: every key is refused,
      with no message. */
  lemma OneTimePadUnchecked(key: string)
    ensures Validation("onetimepad", key) == KeyCheck(false, "")
  {
  }

  // ---------------------------------------------------------------------------
  // generate_random_key
  //
  // The random source is a parameter: `draws(n)` is the raw value of the
  // `n`-th call made to it, and each call maps its raw value into the range
  // it was asked for.

  /** `random.randint(lo, hi)` given the raw draw `x`. */
  function RandInt(lo: int, hi: int, x: int): (r: int)
    requires lo <= hi
    ensures lo <= r <= hi
  {
    lo + x % (hi - lo + 1)
  }

  /** The values of `a` the generator chooses from for an affine key. */
  const COPRIME_VALUES: seq<int> := [1, 3, 5, 7, 9, 11, 15, 17, 19, 21, 23, 25]

  /** Every value in the list is coprime with 26. */
  lemma CoprimeValuesCoprime()
    ensures forall i :: 0 <= i < |COPRIME_VALUES| ==> Gcd(COPRIME_VALUES[i], SIZE) == 1
  {
    forall i | 0 <= i < |COPRIME_VALUES| ensures Gcd(COPRIME_VALUES[i], SIZE) == 1 {
      ListedValueCoprime(COPRIME_VALUES[i]);
    }
  }

  /** Each value of the list, taken one at a time, is coprime with 26. */
  lemma ListedValueCoprime(x: nat)
    requires x in COPRIME_VALUES
    ensures Gcd(x, SIZE) == 1
  {
    if x == 1 { assert Gcd(1, 26) == 1; }
    else if x == 3 { assert Gcd(3, 26) == 1; }
    else if x == 5 { assert Gcd(5, 26) == 1; }
    else if x == 7 { assert Gcd(7, 26) == 1; }
    else if x == 9 { assert Gcd(9, 26) == 1; }
    else if x == 11 { assert Gcd(11, 26) == 1; }
    else if x == 15 { assert Gcd(15, 26) == 1; }
    else if x == 17 { assert Gcd(17, 26) == 1; }
    else if x == 19 { assert Gcd(19, 26) == 1; }
    else if x == 21 { assert Gcd(21, 26) == 1; }
    else if x == 23 { assert Gcd(23, 26) == 1; }
    else { assert Gcd(25, 26) == 1; }
  }

  /** `random.shuffle(pool)`: the draws from position `n` on pick, one after
      another, which of the remaining elements comes next. */
  function Shuffled(pool: string, draws: nat -> int, n: nat): (r: string)
    ensures multiset(r) == multiset(pool)
    decreases |pool|
  {
    if |pool| == 0 then ""
    else
      var j := draws(n) % |pool|;
      assert pool == pool[..j] + [pool[j]] + pool[j + 1..];
      [pool[j]] + Shuffled(pool[..j] + pool[j + 1..], draws, n + 1)
  }

  /** Taking out one element of a sequence without repeats leaves a sequence
      without repeats that lacks that element. */
  lemma RemoveAt(pool: string, j: nat)
    requires j < |pool| && NoRepeats(pool)
    ensures NoRepeats(pool[..j] + pool[j + 1..])
    ensures pool[j] !in pool[..j] + pool[j + 1..]
  {
    var rest := pool[..j] + pool[j + 1..];
    assert forall k :: 0 <= k < |rest| ==> rest[k] == if k < j then pool[k] else pool[k + 1];
  }

  /** A shuffle of a sequence without repeats has no repeats. */
  lemma {:induction false} ShuffledNoRepeats(pool: string, draws: nat -> int, n: nat)
    requires NoRepeats(pool)
    ensures NoRepeats(Shuffled(pool, draws, n))
    decreases |pool|
  {
    if |pool| > 0 {
      var j := draws(n) % |pool|;
      var rest := pool[..j] + pool[j + 1..];
      RemoveAt(pool, j);
      ShuffledNoRepeats(rest, draws, n + 1);
      var tail := Shuffled(rest, draws, n + 1);
      forall k | 0 <= k < |tail| ensures tail[k] != pool[j] {
        assert tail[k] in multiset(tail);
      }
    }
  }

  /** `''.join(random.choice(string.ascii_uppercase) for _ in range(count))`
      with the draws from position `n` on. */
  function RandomLetters(count: nat, draws: nat -> int, n: nat): (r: string)
    ensures |r| == count && IsUpperText(r)
  {
    var r := seq(count, i requires 0 <= i < count => Letter(draws(n + i) % SIZE));
    assert forall i :: 0 <= i < count ==> r[i] == Letter(draws(n + i) % SIZE);
    r
  }

  /** The key of the shift cipher: `str(random.randint(1, 25))`. */
  function ShiftKey(draws: nat -> int): string {
    IntToString(RandInt(1, 25, draws(0)))
  }

  /** The key of the substitution cipher: the shuffled alphabet. */
  function SubstitutionKey(draws: nat -> int): string {
    Shuffled(ALPHABET, draws, 0)
  }

  /** The `a` and `b` of a generated affine key. */
  function AffineParts(draws: nat -> int): AffineCipher.AffineKey {
    AffineCipher.AffineKey(COPRIME_VALUES[draws(0) % |COPRIME_VALUES|], RandInt(0, 25, draws(1)))
  }

  /** The key of the affine cipher: `f"{a},{b}"`. */
  function AffineKey(draws: nat -> int): string {
    var k := AffineParts(draws);
    IntToString(k.a) + "," + IntToString(k.b)
  }

  /** A key of `random.randint(lo, hi)` random letters. */
  function LettersKey(lo: nat, hi: nat, draws: nat -> int): string
    requires lo <= hi
  {
    RandomLetters(RandInt(lo, hi, draws(0)), draws, 1)
  }

  /** The `k`-th matrix the Hill loop draws: four entries from 0 to 25. */
  function Candidate(draws: nat -> int, k: nat): HillCipher.Matrix {
    HillCipher.Matrix(RandInt(0, 25, draws(4 * k)), RandInt(0, 25, draws(4 * k + 1)),
                      RandInt(0, 25, draws(4 * k + 2)), RandInt(0, 25, draws(4 * k + 3)))
  }

  /** `','.join(map(str, matrix))`, written out for the four entries. */
  function MatrixKey(m: HillCipher.Matrix): string {
    IntToString(m.a) + "," + IntToString(m.b) + "," + IntToString(m.c) + "," + IntToString(m.d)
  }

  /** The draws eventually give a matrix the Hill loop accepts. */
  ghost predicate HasInvertibleCandidate(draws: nat -> int) {
    exists k: nat :: HillCipher.Invertible(Candidate(draws, k))
  }

  /** The Hill branch of `generate_random_key`: matrices are drawn until one
      has a determinant coprime with 26. The Python loop has no bound;
      here it ends because the draws are assumed to contain such a matrix,
      and `attempt` says which one was taken. */
  method GenerateHillKey(draws: nat -> int) returns (key: string, ghost attempt: nat)
    requires HasInvertibleCandidate(draws)
    ensures HillCipher.Invertible(Candidate(draws, attempt))
    ensures forall j: nat :: j < attempt ==> !HillCipher.Invertible(Candidate(draws, j))
    ensures key == MatrixKey(Candidate(draws, attempt))
  {
    ghost var w: nat :| HillCipher.Invertible(Candidate(draws, w));
    var k: nat := 0;
    while true
      invariant k <= w
      invariant forall j: nat :: j < k ==> !HillCipher.Invertible(Candidate(draws, j))
      decreases w - k
    {
      var matrix := Candidate(draws, k);
      var accepted := DeterminantCoprime(matrix);
      if accepted {
        return MatrixKey(matrix), k;
      }
      assert k != w;
      forall j: nat | j < k + 1 ensures !HillCipher.Invertible(Candidate(draws, j)) {
        if j == k {
          assert Candidate(draws, j) == matrix;
        }
      }
      k := k + 1;
    }
  }

  /** `gcd((m[0]*m[3] - m[1]*m[2]) % 26, 26) == 1`, the test of the Hill loop. */
  method DeterminantCoprime(matrix: HillCipher.Matrix) returns (accepted: bool)
    ensures accepted <==> HillCipher.Invertible(matrix)
  {
    var det := (matrix.a * matrix.d - matrix.b * matrix.c) % 26;
    var g := GcdLoop(det, 26);
    accepted := g == 1;
  }

  /** The branches of `generate_random_key` that draw a fixed number of
      values; the Hill branch is `GenerateHillKey`. */
  function DrawnKey(kind: CipherType, draws: nat -> int): string
    requires kind != Hill
  {
    match kind
    case Shift => ShiftKey(draws)
    case Substitution => SubstitutionKey(draws)
    case Affine => AffineKey(draws)
    case Vigenere => LettersKey(3, 8, draws)
    case Permutation => LettersKey(3, 8, draws)
    case Playfair => LettersKey(5, 10, draws)
    case OtherType => ""
  }

  /** `generate_random_key(cipher_type)`: every key it makes for a cipher type
      the validator knows passes the validator, and any other type gets the
      empty string. */
  method GenerateRandomKey(cipherType: string, draws: nat -> int) returns (key: string)
    requires TypeOf(cipherType) == Hill ==> HasInvertibleCandidate(draws)
    ensures IsCheckedType(cipherType) ==> Validation(cipherType, key).valid
    ensures !IsCheckedType(cipherType) ==> key == ""
    ensures TypeOf(cipherType) != Hill ==> key == DrawnKey(TypeOf(cipherType), draws)
  {
    var kind := TypeOf(cipherType);
    key := GenerateKeyOf(kind, draws);
  }

  /** The branches of `generate_random_key`, once the cipher type is known. */
  method GenerateKeyOf(kind: CipherType, draws: nat -> int) returns (key: string)
    requires kind == Hill ==> HasInvertibleCandidate(draws)
    ensures kind != OtherType ==> CheckOf(kind, key).valid
    ensures kind == OtherType ==> key == ""
    ensures kind != Hill ==> key == DrawnKey(kind, draws)
  {
    if kind == Hill {
      ghost var attempt;
      key, attempt := GenerateHillKey(draws);
      MatrixKeyValid(Candidate(draws, attempt));
    } else {
      key := DrawnKey(kind, draws);
      if kind != OtherType {
        DrawnKeyValid(kind, draws);
      }
    }
  }

  /** Every key drawn for a cipher type the validator knows passes it. */
  lemma DrawnKeyValid(kind: CipherType, draws: nat -> int)
    requires kind != Hill && kind != OtherType
    ensures CheckOf(kind, DrawnKey(kind, draws)).valid
  {
    match kind
    case Shift => ShiftKeyValid(draws);
    case Substitution => SubstitutionKeyValid(draws);
    case Affine => AffineKeyValid(draws);
    case Vigenere => LettersKeyValid(3, 8, draws);
    case Permutation => LettersKeyValid(3, 8, draws);
    case Playfair => LettersKeyValid(5, 10, draws);
  }

  // ---------------------------------------------------------------------------
  // Generated keys are valid

  /** A generated shift key is a number from 1 to 25: valid, and used by the
      shift cipher as it is. */
  lemma ShiftKeyValid(draws: nat -> int)
    ensures ShiftCheck(ShiftKey(draws)).valid
    ensures ParseInt(ShiftKey(draws)) == Some(RandInt(1, 25, draws(0)))
  {
    ParseIntToString(RandInt(1, 25, draws(0)));
  }

  /** A generated substitution key is a rearrangement of the alphabet: valid,
      and accepted as it is by the substitution cipher. */
  lemma SubstitutionKeyValid(draws: nat -> int)
    ensures SubstitutionCheck(SubstitutionKey(draws)).valid
    ensures SubstitutionCipher.ValidatedKey(SubstitutionKey(draws)) == Ok(SubstitutionKey(draws))
  {
    SubstitutionCipher.AlphabetIsPermutation();
    ShuffledPermutation(ALPHABET, draws, 0);
    PermutationKeyValid(SubstitutionKey(draws));
  }

  /** A rearrangement of the alphabet passes the validator and the cipher's
      own checks unchanged. */
  lemma PermutationKeyValid(k: string)
    requires SubstitutionCipher.IsAlphabetPermutation(k)
    ensures SubstitutionCheck(k).valid
    ensures SubstitutionCipher.ValidatedKey(k) == Ok(k)
  {
    NormalisedNoLower(k);
    SubstitutionCipher.ValidatedKeyIsPermutation(k);
    SubstitutionValid(k);
  }

  /** A shuffle of a rearrangement of the alphabet is one too. */
  lemma ShuffledPermutation(pool: string, draws: nat -> int, n: nat)
    requires SubstitutionCipher.IsAlphabetPermutation(pool)
    ensures SubstitutionCipher.IsAlphabetPermutation(Shuffled(pool, draws, n))
  {
    var k := Shuffled(pool, draws, n);
    ShuffledNoRepeats(pool, draws, n);
    assert |k| == |multiset(k)| == |multiset(pool)| == SIZE;
    forall i | 0 <= i < |k| ensures IsUpperLetter(k[i]) {
      assert k[i] in multiset(pool);
    }
  }

  /** A generated affine key is valid and parses back to the `a` and `b` it
      was written from. */
  lemma AffineKeyValid(draws: nat -> int)
    ensures AffineCheck(AffineKey(draws)).valid
    ensures AffineCipher.ParseKey(AffineKey(draws)) == Ok(AffineParts(draws))
  {
    var k := AffineParts(draws);
    CoprimeValuesCoprime();
    assert AffineCipher.GcdWithSize(k.a) == 1;
    AffineCipher.ParseKeyOfIntegers(k.a, k.b);
    AffineValid(AffineKey(draws));
  }

  /** A generated key of letters is valid for the letters-only cipher types. */
  lemma LettersKeyValid(lo: nat, hi: nat, draws: nat -> int)
    requires 1 <= lo <= hi
    ensures IsLetterKey(LettersKey(lo, hi, draws))
  {
    var k := LettersKey(lo, hi, draws);
    assert IsAlpha(k[0]);
    LetterKeyValid(k);
  }

  /** A matrix written as a key is valid exactly when the matrix is
      invertible, and the Hill cipher then reads the matrix back from it. */
  lemma MatrixKeyValid(m: HillCipher.Matrix)
    ensures HillCheck(MatrixKey(m)).valid <==> HillCipher.Invertible(m)
    ensures HillCipher.Invertible(m) ==> HillCipher.ParseKeyMatrix(MatrixKey(m)) == Ok(m)
  {
    HillCipher.ParseKeyOfIntegers(m);
    HillValid(MatrixKey(m));
  }

  // ---------------------------------------------------------------------------
  // analyze_text

  /** The number of times `c` occurs in `s`. */
  function Occurrences(s: string, c: char): nat {
    if |s| == 0 then 0
    else Occurrences(s[..|s| - 1], c) + (if s[|s| - 1] == c then 1 else 0)
  }

  /** The number of upper-case letters in `s`. */
  function LetterCount(s: string): nat {
    if |s| == 0 then 0
    else LetterCount(s[..|s| - 1]) + (if IsUpperLetter(s[|s| - 1]) then 1 else 0)
  }

  /** The count of every letter of the alphabet in `s`, in alphabet order. */
  function Counts(s: string): (r: seq<nat>)
    ensures |r| == SIZE
  {
    seq(SIZE, i requires 0 <= i < SIZE => Occurrences(s, Letter(i)))
  }

  function Sum(xs: seq<nat>): nat {
    if |xs| == 0 then 0 else Sum(xs[..|xs| - 1]) + xs[|xs| - 1]
  }

  function RealSum(xs: seq<real>): real {
    if |xs| == 0 then 0.0 else RealSum(xs[..|xs| - 1]) + xs[|xs| - 1]
  }

  /** `freq_count[c] / total_chars * 100`, or 0 when there are no letters,
      as an exact fraction. */
  function Percent(count: nat, total: nat): real {
    if total > 0 then (count as real) / (total as real) * 100.0 else 0.0
  }

  function Percents(counts: seq<nat>, total: nat): (r: seq<real>)
    ensures |r| == |counts|
  {
    seq(|counts|, i requires 0 <= i < |counts| => Percent(counts[i], total))
  }

  /** Sort keys that put the larger counts first. */
  function Negated(counts: seq<nat>): (r: seq<int>)
    ensures |r| == |counts| && forall i :: 0 <= i < |r| ==> r[i] == -(counts[i] as int)
  {
    seq(|counts|, i requires 0 <= i < |counts| => -(counts[i] as int))
  }

  /** The dictionary `analyze_text` returns. The two dictionaries keyed by
      letter are sequences in alphabet order. */
  datatype Analysis = Analysis(
    totalCharacters: nat,
    frequencyCount: seq<nat>,
    frequencyPercent: seq<real>,
    sortedFrequency: seq<(char, real)>,
    mostCommon: (char, real),
    leastCommon: (char, real))

  /** The pairs `(letter, percent)` in the given order of alphabet positions. */
  function Pairs(order: seq<nat>, percents: seq<real>): (r: seq<(char, real)>)
    requires |percents| == SIZE && forall k :: 0 <= k < |order| ==> order[k] < SIZE
    ensures |r| == |order|
  {
    seq(|order|, k requires 0 <= k < |order| => (Letter(order[k]), percents[order[k]]))
  }

  /** `analyze_text(text)`. The stable sort is taken on the counts, which
      order the letters as the percentages do (`PercentOrder`). */
  function Analyzed(text: string): (a: Analysis)
    ensures |a.frequencyCount| == SIZE && |a.frequencyPercent| == SIZE
    ensures |a.sortedFrequency| == SIZE
  {
    var upper := Upper(text);
    var counts := Counts(upper);
    var total := LetterCount(upper);
    var percents := Percents(counts, total);
    var sorted := Pairs(ArgSort(Negated(counts)), percents);
    Analysis(total, counts, percents, sorted, sorted[0], sorted[SIZE - 1])
  }

  method AnalyzeText(text: string) returns (a: Analysis)
    ensures a == Analyzed(text)
  {
    var upper := Upper(text);
    var counts, total := CountLetters(upper);
    var percents: seq<real> := [];
    for i := 0 to SIZE
      invariant percents == Percents(counts, total)[..i]
    {
      percents := percents + [if total > 0 then (counts[i] as real) / (total as real) * 100.0 else 0.0];
    }
    assert percents == Percents(counts, total);
    var sorted := Pairs(ArgSort(Negated(counts)), percents);
    a := Analysis(total, counts, percents, sorted, sorted[0], sorted[SIZE - 1]);
  }

  /** The counting loop of `analyze_text` over the upper-cased text. */
  method CountLetters(upper: string) returns (counts: seq<nat>, total: nat)
    ensures counts == Counts(upper) && total == LetterCount(upper)
  {
    counts := seq(SIZE, _ => 0);
    total := 0;
    assert counts == Counts(upper[..0]);
    for k := 0 to |upper|
      invariant counts == Counts(upper[..k]) && total == LetterCount(upper[..k])
    {
      var c := upper[k];
      assert upper[..k + 1] == upper[..k] + [c];
      CountsStep(upper[..k], c);
      if IsUpperLetter(c) {
        counts := counts[Index(c) := counts[Index(c)] + 1];
        total := total + 1;
      }
    }
    assert upper[..|upper|] == upper;
  }

  /** One more character adds one to the count of its letter, if it is one. */
  lemma CountsStep(s: string, c: char)
    ensures LetterCount(s + [c]) == LetterCount(s) + if IsUpperLetter(c) then 1 else 0
    ensures Counts(s + [c]) ==
      if IsUpperLetter(c) then Counts(s)[Index(c) := Counts(s)[Index(c)] + 1] else Counts(s)
  {
    assert (s + [c])[..|s|] == s;
    forall i | 0 <= i < SIZE
      ensures Occurrences(s + [c], Letter(i)) ==
        Occurrences(s, Letter(i)) + if IsUpperLetter(c) && Index(c) == i then 1 else 0
    {
      assert c == Letter(i) <==> IsUpperLetter(c) && Index(c) == i;
    }
  }

  lemma {:induction false} SumUpdate(xs: seq<nat>, j: nat, v: nat)
    requires j < |xs|
    ensures Sum(xs[j := v]) == Sum(xs) - xs[j] + v
    decreases |xs|
  {
    var n := |xs| - 1;
    if j < n {
      assert xs[j := v][..n] == xs[..n][j := v];
      SumUpdate(xs[..n], j, v);
    } else {
      assert xs[j := v][..n] == xs[..n];
    }
  }

  /** The total is the sum of the letter counts. */
  lemma {:induction false} CountsSum(s: string)
    ensures Sum(Counts(s)) == LetterCount(s)
    decreases |s|
  {
    if |s| == 0 {
      var z := Counts(s);
      forall n | 0 <= n <= SIZE ensures Sum(z[..n]) == 0 {
        SumZeroPrefix(z, n);
      }
      assert z[..SIZE] == z;
    } else {
      var p, c := s[..|s| - 1], s[|s| - 1];
      assert s == p + [c];
      CountsSum(p);
      CountsStep(p, c);
      if IsUpperLetter(c) {
        SumUpdate(Counts(p), Index(c), Counts(p)[Index(c)] + 1);
      }
    }
  }

  lemma {:induction false} SumZeroPrefix(z: seq<nat>, n: nat)
    requires n <= |z| && forall i :: 0 <= i < |z| ==> z[i] == 0
    ensures Sum(z[..n]) == 0
  {
    if n > 0 {
      assert z[..n][..n - 1] == z[..n - 1];
      SumZeroPrefix(z, n - 1);
    }
  }

  /** A sum of naturals is zero only when every term is. */
  lemma {:induction false} SumZero(xs: seq<nat>)
    requires Sum(xs) == 0
    ensures forall i :: 0 <= i < |xs| ==> xs[i] == 0
    decreases |xs|
  {
    if |xs| > 0 {
      SumZero(xs[..|xs| - 1]);
      assert forall i :: 0 <= i < |xs| - 1 ==> xs[i] == xs[..|xs| - 1][i];
    }
  }

  /** The letters counted are the letters the ciphers keep: upper-casing
      first and then counting `A`..`Z` finds exactly `clean_text(text)`'s. */
  lemma {:induction false} LetterCountIsCleanLength(text: string)
    ensures LetterCount(Upper(text)) == |CleanText(text, false)|
    decreases |text|
  {
    if |text| > 0 {
      var p, c := text[..|text| - 1], text[|text| - 1];
      LetterCountIsCleanLength(p);
      var u := Upper(text);
      assert u[..|u| - 1] == Upper(p);
      assert IsUpperLetter(ToUpper(c)) <==> IsAlpha(c);
    }
  }

  /** `total_characters` is the sum of `frequency_count` and the number of
      letters in the text. */
  lemma TotalIsSum(text: string)
    ensures Analyzed(text).totalCharacters == Sum(Analyzed(text).frequencyCount)
    ensures Analyzed(text).totalCharacters == |CleanText(text, false)|
  {
    CountsSum(Upper(text));
    LetterCountIsCleanLength(text);
  }

  /** With no letters, every percentage is 0 and the ranking is the alphabet
      in order, from `('A', 0)` to `('Z', 0)`. */
  lemma NoLetters(text: string)
    requires |CleanText(text, false)| == 0
    ensures forall i :: 0 <= i < SIZE ==> Analyzed(text).frequencyPercent[i] == 0.0
    ensures forall k :: 0 <= k < SIZE ==> Analyzed(text).sortedFrequency[k] == (Letter(k), 0.0)
    ensures Analyzed(text).mostCommon == ('A', 0.0) && Analyzed(text).leastCommon == ('Z', 0.0)
  {
    TotalIsSum(text);
    var counts := Counts(Upper(text));
    SumZero(counts);
    var keys := Negated(counts);
    var order := ArgSort(keys);
    forall a, b | 0 <= a < b < SIZE ensures order[a] < order[b] {
      assert Before(keys, order[a], order[b]);
    }
    IncreasingIsIdentity(order);
  }

  /** A strictly increasing sequence of `n` positions below `n` is `0, 1, ..., n-1`. */
  lemma IncreasingIsIdentity(order: seq<nat>)
    requires forall k :: 0 <= k < |order| ==> order[k] < |order|
    requires forall a, b :: 0 <= a < b < |order| ==> order[a] < order[b]
    ensures forall k :: 0 <= k < |order| ==> order[k] == k
  {
    forall k | 0 <= k < |order| ensures order[k] == k {
      AtLeastIndex(order, k);
      AtMostIndex(order, k);
    }
  }

  lemma {:induction false} AtLeastIndex(order: seq<nat>, k: nat)
    requires k < |order|
    requires forall a, b :: 0 <= a < b < |order| ==> order[a] < order[b]
    ensures order[k] >= k
  {
    if k > 0 {
      AtLeastIndex(order, k - 1);
    }
  }

  lemma {:induction false} AtMostIndex(order: seq<nat>, k: nat)
    requires k < |order|
    requires forall k :: 0 <= k < |order| ==> order[k] < |order|
    requires forall a, b :: 0 <= a < b < |order| ==> order[a] < order[b]
    ensures order[k] <= k
    decreases |order| - k
  {
    if k < |order| - 1 {
      AtMostIndex(order, k + 1);
    }
  }

  /** With letters in the text the percentages are in the same order as the
      counts, and equal exactly when the counts are. */
  lemma PercentOrder(c1: nat, c2: nat, total: nat)
    requires total > 0
    ensures Percent(c1, total) < Percent(c2, total) <==> c1 < c2
    ensures Percent(c1, total) == Percent(c2, total) <==> c1 == c2
  {
    var t := total as real;
    assert Percent(c1, total) * t == (c1 as real) * 100.0;
    assert Percent(c2, total) * t == (c2 as real) * 100.0;
  }

  /** The percentages add up to 100 when there is a letter. */
  lemma PercentsSum(text: string)
    requires |CleanText(text, false)| > 0
    ensures RealSum(Analyzed(text).frequencyPercent) == 100.0
  {
    var upper := Upper(text);
    var counts, total := Counts(upper), LetterCount(upper);
    TotalIsSum(text);
    assert Analyzed(text).frequencyPercent == Percents(counts, total);
    PercentsSumPrefix(counts, total, SIZE);
    assert counts[..SIZE] == counts;
    assert Percents(counts, total)[..SIZE] == Percents(counts, total);
    WholeIsHundred(total);
  }

  lemma WholeIsHundred(total: nat)
    requires total > 0
    ensures (total as real) / (total as real) * 100.0 == 100.0
  {
  }

  lemma {:induction false} PercentsSumPrefix(counts: seq<nat>, total: nat, n: nat)
    requires total > 0 && n <= |counts|
    ensures RealSum(Percents(counts, total)[..n]) ==
      (Sum(counts[..n]) as real) / (total as real) * 100.0
  {
    if n > 0 {
      PercentsSumPrefix(counts, total, n - 1);
      var p := Percents(counts, total);
      assert p[..n][..n - 1] == p[..n - 1];
      assert counts[..n][..n - 1] == counts[..n - 1];
      var t := total as real;
      var s := Sum(counts[..n - 1]) as real;
      var c := counts[n - 1] as real;
      assert s / t * 100.0 + c / t * 100.0 == (s + c) / t * 100.0;
    }
  }

  /** The stable order on the negated counts: larger counts first, equal
      counts in alphabet order, every letter exactly once. */
  lemma OrderFacts(counts: seq<nat>)
    requires |counts| == SIZE
    ensures forall k, l :: 0 <= k < l < SIZE ==>
      var order := ArgSort(Negated(counts));
      counts[order[k]] > counts[order[l]] || (counts[order[k]] == counts[order[l]] && order[k] < order[l])
    ensures forall i :: 0 <= i < SIZE ==> i in ArgSort(Negated(counts))
    ensures NoRepeats(ArgSort(Negated(counts)))
  {
    var keys := Negated(counts);
    var order := ArgSort(keys);
    ArgSortPermutation(keys);
    forall k, l | 0 <= k < l < SIZE
      ensures counts[order[k]] > counts[order[l]] || (counts[order[k]] == counts[order[l]] && order[k] < order[l])
    {
      assert Before(keys, order[k], order[l]);
    }
  }

  /** `sorted_frequency` is every letter once, from the highest percentage to
      the lowest, letters with equal percentages in alphabet order: the order
      of Python's stable `sorted(..., reverse=True)`. */
  lemma RankingOrder(text: string)
    ensures forall k, l :: 0 <= k < l < SIZE ==>
      var x, y := Analyzed(text).sortedFrequency[k], Analyzed(text).sortedFrequency[l];
      x.1 > y.1 || (x.1 == y.1 && x.0 < y.0)
    ensures forall c :: IsUpperLetter(c) ==>
      exists k :: 0 <= k < SIZE && Analyzed(text).sortedFrequency[k].0 == c
    ensures forall k, l :: 0 <= k < l < SIZE ==>
      Analyzed(text).sortedFrequency[k].0 != Analyzed(text).sortedFrequency[l].0
    ensures forall k :: 0 <= k < SIZE ==>
      var x := Analyzed(text).sortedFrequency[k];
      IsUpperLetter(x.0) && x.1 == Analyzed(text).frequencyPercent[Index(x.0)]
  {
    var upper := Upper(text);
    var counts, total := Counts(upper), LetterCount(upper);
    var percents := Percents(counts, total);
    assert Analyzed(text).sortedFrequency == Pairs(ArgSort(Negated(counts)), percents);
    assert Analyzed(text).frequencyPercent == percents;
    CountsSum(upper);
    RankedByPercent(counts, total);
    RankedLetters(counts, percents);
  }

  /** The ranked pairs go from the highest percentage to the lowest, equal
      percentages in alphabet order. */
  lemma RankedByPercent(counts: seq<nat>, total: nat)
    requires |counts| == SIZE && Sum(counts) == total
    ensures forall k, l :: 0 <= k < l < SIZE ==>
      var ranked := Pairs(ArgSort(Negated(counts)), Percents(counts, total));
      ranked[k].1 > ranked[l].1 || (ranked[k].1 == ranked[l].1 && ranked[k].0 < ranked[l].0)
  {
    var order := ArgSort(Negated(counts));
    var ranked := Pairs(order, Percents(counts, total));
    OrderFacts(counts);
    if total == 0 {
      SumZero(counts);
    }
    forall k, l | 0 <= k < l < SIZE
      ensures ranked[k].1 > ranked[l].1 || (ranked[k].1 == ranked[l].1 && ranked[k].0 < ranked[l].0)
    {
      assert ranked[k] == (Letter(order[k]), Percent(counts[order[k]], total));
      assert ranked[l] == (Letter(order[l]), Percent(counts[order[l]], total));
      if total > 0 {
        PercentOrder(counts[order[k]], counts[order[l]], total);
      }
    }
  }

  /** The ranked pairs hold every letter once, each with its own percentage. */
  lemma RankedLetters(counts: seq<nat>, percents: seq<real>)
    requires |counts| == SIZE && |percents| == SIZE
    ensures forall c :: IsUpperLetter(c) ==>
      exists k :: 0 <= k < SIZE && Pairs(ArgSort(Negated(counts)), percents)[k].0 == c
    ensures forall k, l :: 0 <= k < l < SIZE ==>
      Pairs(ArgSort(Negated(counts)), percents)[k].0 != Pairs(ArgSort(Negated(counts)), percents)[l].0
    ensures forall k :: 0 <= k < SIZE ==>
      var x := Pairs(ArgSort(Negated(counts)), percents)[k];
      IsUpperLetter(x.0) && x.1 == percents[Index(x.0)]
  {
    var order := ArgSort(Negated(counts));
    var ranked := Pairs(order, percents);
    OrderFacts(counts);
    forall c | IsUpperLetter(c) ensures exists k :: 0 <= k < SIZE && ranked[k].0 == c {
      assert Index(c) in order;
      var k :| 0 <= k < SIZE && order[k] == Index(c);
      assert ranked[k].0 == Letter(Index(c)) == c;
    }
    forall k, l | 0 <= k < l < SIZE ensures ranked[k].0 != ranked[l].0 {
      assert Index(ranked[k].0) == order[k];
    }
  }

  /** `most_common` is a letter of the highest count, the first such letter
      in the alphabet. */
  lemma MostCommon(text: string)
    ensures IsUpperLetter(Analyzed(text).mostCommon.0)
    ensures forall i :: 0 <= i < SIZE ==>
      Analyzed(text).frequencyCount[i] <= Analyzed(text).frequencyCount[Index(Analyzed(text).mostCommon.0)]
    ensures forall i :: 0 <= i < Index(Analyzed(text).mostCommon.0) ==>
      Analyzed(text).frequencyCount[i] < Analyzed(text).frequencyCount[Index(Analyzed(text).mostCommon.0)]
  {
    var counts := Counts(Upper(text));
    var order := ArgSort(Negated(counts));
    assert Analyzed(text).mostCommon.0 == Letter(order[0]);
    OrderFacts(counts);
    forall i | 0 <= i < SIZE && i != order[0]
      ensures counts[i] < counts[order[0]] || (counts[i] == counts[order[0]] && order[0] < i)
    {
      assert i in order;
      var k :| 0 <= k < SIZE && order[k] == i;
      assert k > 0;
    }
  }

  /** `least_common` is a letter of the lowest count, the last such letter in
      the alphabet. */
  lemma LeastCommon(text: string)
    ensures IsUpperLetter(Analyzed(text).leastCommon.0)
    ensures forall i :: 0 <= i < SIZE ==>
      Analyzed(text).frequencyCount[Index(Analyzed(text).leastCommon.0)] <= Analyzed(text).frequencyCount[i]
    ensures forall i :: Index(Analyzed(text).leastCommon.0) < i < SIZE ==>
      Analyzed(text).frequencyCount[Index(Analyzed(text).leastCommon.0)] < Analyzed(text).frequencyCount[i]
  {
    var counts := Counts(Upper(text));
    var order := ArgSort(Negated(counts));
    assert Analyzed(text).leastCommon.0 == Letter(order[SIZE - 1]);
    OrderFacts(counts);
    forall i | 0 <= i < SIZE && i != order[SIZE - 1]
      ensures counts[order[SIZE - 1]] < counts[i] || (counts[i] == counts[order[SIZE - 1]] && i < order[SIZE - 1])
    {
      assert i in order;
      var k :| 0 <= k < SIZE && order[k] == i;
      assert k < SIZE - 1;
    }
  }
}
