# Classical cipher engine in Dafny

This project models the cipher engine of a small web application for
classical cryptography, and proves properties of that model. The engine has
eight ciphers on the 26-letter upper-case alphabet, all sharing one base
class:

- shift, affine, Vigenère and one-time pad: letter-wise arithmetic modulo 26;
- substitution: a permutation of the alphabet;
- Hill: a 2×2 key matrix modulo 26;
- permutation: columnar transposition;
- Playfair: a 5×5 key square over the alphabet without `J`.

The model also covers the utilities that sit next to the ciphers: the
Euclidean `gcd` loop, the key validator called before encrypting, the random
key generator and the letter frequency analysis.

Each cipher module has the same layout:

- Specification functions state what a call computes. `Encryption` and
  `Decryption` each return a `Result`, either `Ok(text)` or `Err(message)`.
  An error message stands for the exception the cipher raises.
- Methods follow the loops of the Python code: `Encrypt`, `Decrypt` and their helpers.
  Each is proved equal to its specification function.
- Lemmas state the round trips, error cases, lengths and worked examples.

Module `Builtins` models Python's string built-ins on ASCII:

- `upper`, `replace`, `isalpha`, `isspace`, `split` and `join`;
- `int()` as an optional parse;
- `str()` of an integer;
- the stable `sorted` as an argument sort.

Module `NumberTheory` holds the gcd and congruence facts the ciphers share.

The key validator and the ciphers do not always agree. The model keeps each
disagreement as it is written and states it as a lemma:

- `CryptoUtils.ShiftValidatorStricter`: the validator refuses shift keys
  outside 0..25, while the cipher reduces any integer modulo 26.
- `CryptoUtils.SubstitutionValidatorLooser`: the validator accepts 26
  distinct characters that are not all letters, while the cipher refuses them.
- `CryptoUtils.OneTimePadUnchecked`: the validator has no branch for the
  one-time pad.

The permutation cipher counts the columns from the raw key length, spaces
and punctuation included. The model keeps that count.

## Model

| member | source | states |
|---|---|---|
| Builtins.ToUpper | ciphers/base_cipher.py:31-32 | a letter becomes an upper-case letter; any character that is not a lower-case letter is unchanged |
| Builtins.Upper | utils/crypto_utils.py:12 | `str.upper` keeps the length and upper-cases each character in place |
| Builtins.ReplaceChar | ciphers/playfair_cipher.py:13 | `str.replace` of one character keeps the length and replaces exactly the matching positions |
| Builtins.RemoveChar | ciphers/base_cipher.py:37 | removing a character leaves no occurrence of it and never lengthens the text |
| Builtins.RemoveCharAppend | ciphers/base_cipher.py:37 | removing a character distributes over concatenation |
| Builtins.RemoveCharAbsent | ciphers/base_cipher.py:37 | removing a character that does not occur changes nothing |
| Builtins.IntToString | utils/crypto_utils.py:45 | `str(n)` is non-empty and made only of digits and a minus sign |
| Builtins.ParseIntToString | utils/crypto_utils.py:45 | `int(str(n)) == n` for every integer |
| Builtins.ParseSignedIntToString | utils/crypto_utils.py:57 | the signed-digit parser reads back any printed integer |
| Builtins.NoSpaceInIntToString | utils/crypto_utils.py:69 | a printed integer has no whitespace, so joining printed integers with commas keeps them separable |
| Builtins.Split | utils/crypto_utils.py:109 | `str.split(sep)` returns at least one part and no part contains the separator |
| Builtins.SplitJoin | utils/crypto_utils.py:69 | splitting the join of separator-free parts gives the parts back |
| Builtins.ElemsCard | utils/crypto_utils.py:103 | `len(set(s)) == len(s)` exactly when `s` has no repeated element |
| Builtins.SortFrom | ciphers/permutation_cipher.py:9 | the insertion sort of the first `n` positions is a permutation of them, stably sorted by key |
| Builtins.ArgSort | ciphers/permutation_cipher.py:9 | the sorted positions are a permutation of all positions, ordered by key with ties left to right |
| Builtins.ArgSortPermutation | ciphers/permutation_cipher.py:9 | the sorted positions have no repeats and include every position |
| Builtins.IndexOf | ciphers/substitution_cipher.py:42 | `str.index` returns the first position holding the character |
| NumberTheory.GcdIsGreatest | utils/crypto_utils.py:82-86 | the gcd divides both numbers and every common divisor is at most the gcd |
| NumberTheory.GcdCommutes | utils/crypto_utils.py:82-86 | the gcd does not depend on the order of its arguments |
| NumberTheory.GcdAbsMod | ciphers/base_cipher.py:51 | `gcd` of the absolute value equals `gcd` of the remainder modulo `m`, so reducing `a` first does not change coprimality |
| NumberTheory.GcdStep | ciphers/base_cipher.py:46 | one Euclidean step keeps the gcd |
| BaseCipher.Letter | ciphers/base_cipher.py:8 | `alphabet[i]` is an upper-case letter whose alphabet index is `i` |
| BaseCipher.AlphabetLetters | ciphers/base_cipher.py:8-9 | the alphabet has 26 letters and index and letter are inverse |
| BaseCipher.CleanText | ciphers/base_cipher.py:28-32 | without spaces the result is only A–Z; with spaces only A–Z and spaces; never longer than the input |
| BaseCipher.CleanTextAppend | ciphers/base_cipher.py:31-32 | cleaning works character by character, so it distributes over concatenation in both modes |
| BaseCipher.CleanTextOfUpper | ciphers/base_cipher.py:32 | cleaning an upper-case letter text returns it unchanged |
| BaseCipher.CleanTextIdempotent | ciphers/base_cipher.py:32 | cleaning twice is cleaning once |
| BaseCipher.CleanTextWithoutSpaces | ciphers/base_cipher.py:31-32 | removing the spaces from the space-keeping result gives the default result |
| BaseCipher.Chunks | ciphers/base_cipher.py:38 | every slice is non-empty and at most `group_size` long, and all but the last are full |
| BaseCipher.ChunksConcat | ciphers/base_cipher.py:38 | the slices concatenate back to the text |
| BaseCipher.FormatOutput | ciphers/base_cipher.py:34-39 | fails exactly for `group_size == 0` (the `range` step error); `no_spaces` is the text without spaces; a negative size yields an empty `grouped` |
| BaseCipher.FormatOutputGroups | ciphers/base_cipher.py:38 | splitting `grouped` at spaces gives back the slices, which concatenate to the text |
| BaseCipher.GroupedWithoutSpaces | ciphers/base_cipher.py:37-38 | `grouped` with its spaces removed is `no_spaces` |
| BaseCipher.ExtendedGcd | ciphers/base_cipher.py:43-49 | the recursion returns the gcd with Bézout coefficients: `a*x + b*y == gcd(a, b)` |
| BaseCipher.ModInverse | ciphers/base_cipher.py:41-54 | an inverse exists exactly when `gcd(a mod m, m) == 1` (otherwise the error is raised); it lies in `[0, m)` and `a*x ≡ 1 (mod m)` |
| BaseCipher.ModInverseUnique | ciphers/base_cipher.py:51-54 | any `y` in `[0, m)` with `a*y ≡ 1` is the returned inverse |
| BaseCipher.CoprimeFromInverse | ciphers/base_cipher.py:51-53 | if `a` has an inverse modulo `m` then `a mod m` is coprime with `m` |
| BaseCipher.PadCountLeast | ciphers/hill_cipher.py:47-48 | the padding count is the least number of letters making the length a multiple of the block size |
| BaseCipher.PadXProperties | ciphers/permutation_cipher.py:15-16 | padding gives a multiple of the size, shorter than one more block, keeps the text as prefix, adds only `X`, and changes nothing when already a multiple |
| BaseCipher.PadWithX | ciphers/hill_cipher.py:47-48 | the `while` loop appending `X` computes the padded text |
| BaseCipher.PadXUpper | ciphers/permutation_cipher.py:15-16 | padding an upper-case text keeps it upper-case |
| BaseCipher.AddStream | ciphers/vigenere_cipher.py:27-32 | adding a key stream keeps the length and gives letters |
| BaseCipher.SubStream | ciphers/vigenere_cipher.py:44-49 | subtracting a key stream keeps the length and gives letters |
| BaseCipher.StreamRoundTrip | ciphers/onetimepad_cipher.py:59-64 | subtracting the key stream undoes adding it, and the converse |
| ShiftCipher.Shifted | ciphers/shift_cipher.py:15-19 | shifting keeps the length and gives letters |
| ShiftCipher.Encrypt | ciphers/shift_cipher.py:6-21 | the loop computes the specified encryption: error for a non-integer key, else the shifted clean text |
| ShiftCipher.Decrypt | ciphers/shift_cipher.py:23-38 | the loop computes the specified decryption |
| ShiftCipher.ShiftedCongruent | ciphers/shift_cipher.py:8 | shifts congruent modulo 26 give identical output |
| ShiftCipher.ShiftedInverse | ciphers/shift_cipher.py:18 | shifting by `-s` undoes shifting by `s`, both ways |
| ShiftCipher.ShiftedZero | ciphers/shift_cipher.py:15-19 | the shift by zero leaves an upper-case text as it is |
| ShiftCipher.EncryptionLetters | ciphers/shift_cipher.py:12-21 | for an integer key the output has the clean length and letter `i` is `alphabet[(idx_i + k) mod 26]` |
| ShiftCipher.KeyPeriod | ciphers/shift_cipher.py:8 | keys `k` and `k + 26` encrypt alike |
| ShiftCipher.DecryptionIsNegatedEncryption | ciphers/shift_cipher.py:25-35 | decrypting with `k` is encrypting with `-k` |
| ShiftCipher.DecryptEncrypt | ciphers/shift_cipher.py:6-38 | decrypting an encryption gives the clean plaintext |
| ShiftCipher.EncryptDecrypt | ciphers/shift_cipher.py:6-38 | encrypting a decryption gives the clean ciphertext |
| ShiftCipher.HelloEncrypts | ciphers/shift_cipher.py:6-21 | `HELLO` under key `3` is `KHOOR` |
| ShiftCipher.KhoorDecrypts | ciphers/shift_cipher.py:23-38 | `KHOOR` under key `3` decrypts to `HELLO` |
| SubstitutionCipher.ValidateKey | ciphers/substitution_cipher.py:7-21 | the validation loop computes the specified key check |
| SubstitutionCipher.ValidatedKeyIsPermutation | ciphers/substitution_cipher.py:9-19 | a key is accepted exactly when, upper-cased and without spaces, it is a permutation of the alphabet, and that normal form is what is used |
| SubstitutionCipher.Substituted | ciphers/substitution_cipher.py:28-31 | substitution keeps the length |
| SubstitutionCipher.Unsubstituted | ciphers/substitution_cipher.py:40-43 | reverse substitution never lengthens the text, dropping characters not in the key |
| SubstitutionCipher.Encrypt | ciphers/substitution_cipher.py:23-33 | the loop computes the specified encryption, after rejecting an invalid key |
| SubstitutionCipher.Decrypt | ciphers/substitution_cipher.py:35-45 | the loop computes the specified decryption, after rejecting an invalid key |
| SubstitutionCipher.AlphabetIsPermutation | ciphers/base_cipher.py:8 | the alphabet itself is a valid key |
| SubstitutionCipher.PermutationHasEveryLetter | ciphers/substitution_cipher.py:40-43 | a valid key contains every letter, so decryption drops nothing from letter text |
| SubstitutionCipher.UnsubstituteSubstituted | ciphers/substitution_cipher.py:28-31 | reverse substitution undoes substitution under a valid key |
| SubstitutionCipher.SubstituteUnsubstituted | ciphers/substitution_cipher.py:40-43 | substitution undoes reverse substitution under a valid key |
| SubstitutionCipher.DecryptEncrypt | ciphers/substitution_cipher.py:23-45 | decrypting an encryption gives the clean plaintext |
| SubstitutionCipher.EncryptDecrypt | ciphers/substitution_cipher.py:23-45 | encrypting a decryption gives the clean ciphertext |
| SubstitutionCipher.SubstitutionInjective | ciphers/substitution_cipher.py:28-31 | two letters encrypt alike exactly when they are equal |
| SubstitutionCipher.AlphabetKeyIsIdentity | ciphers/substitution_cipher.py:23-33 | the alphabet as key encrypts to the clean plaintext |
| AffineCipher.Inverse | ciphers/affine_cipher.py:41 | for a coprime `a` the inverse lies in `[0, 26)` and `a * inv ≡ 1` |
| AffineCipher.AffineEncrypted | ciphers/affine_cipher.py:31-35 | affine encryption keeps the length and gives letters |
| AffineCipher.AffineDecrypted | ciphers/affine_cipher.py:45-49 | affine decryption keeps the length and gives letters |
| AffineCipher.Encrypt | ciphers/affine_cipher.py:26-37 | the method computes the specified encryption after parsing the key |
| AffineCipher.EncryptLetters | ciphers/affine_cipher.py:31-35 | the loop maps each letter `x` to `(a*x + b) mod 26` |
| AffineCipher.Decrypt | ciphers/affine_cipher.py:39-51 | the method computes the specified decryption after parsing the key |
| AffineCipher.DecryptLetters | ciphers/affine_cipher.py:45-49 | the loop maps each letter `y` to `inv*(y - b) mod 26` |
| AffineCipher.LetterRoundTrip | ciphers/affine_cipher.py:31-49 | decrypting one encrypted letter gives it back |
| AffineCipher.LetterRoundTripBack | ciphers/affine_cipher.py:31-49 | encrypting one decrypted letter gives it back |
| AffineCipher.DecryptedEncrypted | ciphers/affine_cipher.py:31-49 | letter-wise decryption undoes encryption |
| AffineCipher.EncryptedDecrypted | ciphers/affine_cipher.py:31-49 | letter-wise encryption undoes decryption |
| AffineCipher.DecryptEncrypt | ciphers/affine_cipher.py:26-51 | decrypting an encryption gives the clean plaintext |
| AffineCipher.EncryptDecrypt | ciphers/affine_cipher.py:26-51 | encrypting a decryption gives the clean ciphertext |
| AffineCipher.ParseKeyOfIntegers | ciphers/affine_cipher.py:7-24 | `"a,b"` parses to `(a, b)` when `gcd(a, 26) == 1` and is refused with the coprime message otherwise |
| AffineCipher.ParseKeyCommaCount | ciphers/affine_cipher.py:10-12 | a key without exactly two comma parts is refused with the format message |
| AffineCipher.CommonFactorRefused | ciphers/affine_cipher.py:17-18 | an `a` sharing a factor with 26 is never coprime |
| AffineCipher.UnitFactorIsShift | ciphers/affine_cipher.py:26-37 | with `a = 1` the affine cipher is the shift cipher by `b` |
| AffineCipher.UnitKeyIsIdentity | ciphers/affine_cipher.py:26-37 | the key `1,0` gives back the cleaned plaintext |
| AffineCipher.AffineExample | ciphers/affine_cipher.py:31-35 | `AFFINE` with `a = 5, b = 8` is `IHHWVC` |
| AffineCipher.AffineEncryptionExample | ciphers/affine_cipher.py:26-37 | `encrypt("AFFINE", "5,8")` returns `IHHWVC` |
| VigenereCipher.Repeated | ciphers/vigenere_cipher.py:13-15 | the repeated key has exactly the requested length |
| VigenereCipher.PrepareKey | ciphers/vigenere_cipher.py:6-17 | the loop builds the specified prepared key, or the empty-key error |
| VigenereCipher.PreparedKeyShape | ciphers/vigenere_cipher.py:6-17 | for a key with letters, the prepared key has length `n` and position `i` holds `clean(key)[i mod len]` |
| VigenereCipher.Encrypt | ciphers/vigenere_cipher.py:19-34 | the method computes the specified encryption |
| VigenereCipher.Decrypt | ciphers/vigenere_cipher.py:36-51 | the method computes the specified decryption |
| VigenereCipher.AddLetters | ciphers/vigenere_cipher.py:27-32 | the indexed loop adds the key letter to each text letter modulo 26 |
| VigenereCipher.SubtractLetters | ciphers/vigenere_cipher.py:44-49 | the indexed loop subtracts the key letter from each text letter modulo 26 |
| VigenereCipher.EmptyText | ciphers/vigenere_cipher.py:20-22 | a text without letters gives the empty string in both directions, whatever the key |
| VigenereCipher.EmptyKey | ciphers/vigenere_cipher.py:8-10 | a key without letters raises the empty-key error in both directions when the text has letters |
| VigenereCipher.DecryptEncrypt | ciphers/vigenere_cipher.py:19-51 | decrypting an encryption gives the clean plaintext |
| VigenereCipher.EncryptDecrypt | ciphers/vigenere_cipher.py:19-51 | encrypting a decryption gives the clean ciphertext |
| VigenereCipher.OneLetterKeyIsShift | ciphers/vigenere_cipher.py:6-17 | a key with one letter acts as a shift by that letter's index, non-letters in the key ignored |
| VigenereCipher.DoubledKey | ciphers/vigenere_cipher.py:13-15 | a key written twice encrypts like the key once |
| VigenereCipher.LemonExample | ciphers/vigenere_cipher.py:27-32 | `ATTACKATDAWN` with key `LEMON` is `LXFOPVEFRNHR` |
| VigenereCipher.LemonEncryptionExample | ciphers/vigenere_cipher.py:19-34 | `encrypt("ATTACKATDAWN", "LEMON")` returns `LXFOPVEFRNHR` |
| OneTimePadCipher.PreparedKey | ciphers/onetimepad_cipher.py:43-49 | a direct key is accepted exactly when its clean form is at least as long as the text; then the result is its first `n` letters; else the length error names both lengths |
| OneTimePadCipher.Encrypt | ciphers/onetimepad_cipher.py:51-66 | the loop computes the specified encryption |
| OneTimePadCipher.Decrypt | ciphers/onetimepad_cipher.py:68-83 | the loop computes the specified decryption |
| OneTimePadCipher.EmptyText | ciphers/onetimepad_cipher.py:52-54 | a text without letters gives the empty string without examining the key |
| OneTimePadCipher.ShortKey | ciphers/onetimepad_cipher.py:46-47 | a key shorter than the text raises the length error in both directions |
| OneTimePadCipher.KeyTailIgnored | ciphers/onetimepad_cipher.py:49 | key letters beyond the text length never change the output |
| OneTimePadCipher.DecryptEncrypt | ciphers/onetimepad_cipher.py:51-83 | decrypting an encryption gives the clean plaintext |
| OneTimePadCipher.EncryptDecrypt | ciphers/onetimepad_cipher.py:51-83 | encrypting a decryption gives the clean ciphertext |
| OneTimePadCipher.LongKeyIsVigenere | ciphers/onetimepad_cipher.py:59-64 | with a long enough key the one-time pad computes what the Vigenère cipher computes |
| HillCipher.ParseAll | ciphers/hill_cipher.py:11 | the parts parse exactly when each part is an integer, giving those integers in order |
| HillCipher.ParseKeyMatrix | ciphers/hill_cipher.py:8-26 | every accepted key matrix has a determinant coprime with 26 |
| HillCipher.ParseKeyOfIntegers | ciphers/hill_cipher.py:8-26 | four printed integers parse to their matrix when it is invertible modulo 26 and give the singular error otherwise |
| HillCipher.WrongCount | ciphers/hill_cipher.py:12-13 | integer lists of length other than four are refused with the count message |
| HillCipher.NotANumber | ciphers/hill_cipher.py:23-25 | a part that is not an integer is refused with the numbers message |
| HillCipher.DetInverse | ciphers/hill_cipher.py:30-31 | the determinant inverse lies in `[0, 26)` and times the determinant is 1 modulo 26 |
| HillCipher.InverseIsLeftInverse | ciphers/hill_cipher.py:28-42 | the inverse matrix times the key is the identity modulo 26 |
| HillCipher.InverseIsRightInverse | ciphers/hill_cipher.py:28-42 | the key times the inverse matrix is the identity modulo 26 |
| HillCipher.Vectors | ciphers/hill_cipher.py:50-56 | cutting a padded text gives vectors of the block size with entries in `[0, 26)` |
| HillCipher.VectorsText | ciphers/hill_cipher.py:60-66 | vector entries map back to upper-case letters |
| HillCipher.Apply | ciphers/hill_cipher.py:81 | a matrix times a vector modulo 26 is a vector with entries in `[0, 26)` |
| HillCipher.ApplyAll | ciphers/hill_cipher.py:80-82 | applying the matrix to each block keeps the number of blocks and their shape |
| HillCipher.Encrypt | ciphers/hill_cipher.py:68-84 | the method computes the specified encryption |
| HillCipher.Decrypt | ciphers/hill_cipher.py:86-102 | the method computes the specified decryption |
| HillCipher.TextToVectors | ciphers/hill_cipher.py:44-58 | the padding loop and the nested loops produce the vectors of the `X`-padded text |
| HillCipher.Cut | ciphers/hill_cipher.py:50-56 | the nested loops cut a padded text into its vectors |
| HillCipher.VectorsToText | ciphers/hill_cipher.py:60-66 | the loop turns vectors back into their letters |
| HillCipher.MultiplyAll | ciphers/hill_cipher.py:80-82 | the loop multiplies every vector by the matrix |
| HillCipher.ApplyInverse | ciphers/hill_cipher.py:80-100 | the inverse matrix undoes the key on a vector, and the converse |
| HillCipher.ApplyAllInverse | ciphers/hill_cipher.py:80-100 | the inverse matrix undoes the key on every block, and the converse |
| HillCipher.TextOfVectors | ciphers/hill_cipher.py:50-66 | vectors then text gives back a padded text |
| HillCipher.VectorsOfText | ciphers/hill_cipher.py:50-66 | text then vectors gives back the vectors |
| HillCipher.HillLength | ciphers/hill_cipher.py:77-84 | the output length is the clean length rounded up to even |
| HillCipher.HillRoundTrip | ciphers/hill_cipher.py:68-102 | the inverse matrix undoes the key on whole texts, up to the padding |
| HillCipher.HillRoundTripBack | ciphers/hill_cipher.py:68-102 | the key undoes the inverse matrix on whole texts, up to the padding |
| HillCipher.DecryptEncrypt | ciphers/hill_cipher.py:68-102 | decrypting an encryption gives the clean plaintext with one `X` appended when its length is odd |
| HillCipher.EncryptDecrypt | ciphers/hill_cipher.py:68-102 | encrypting a decryption gives the clean ciphertext, padded the same way |
| HillCipher.IdentityKey | ciphers/hill_cipher.py:68-84 | the identity matrix only pads the text |
| HillCipher.HelpExample | ciphers/hill_cipher.py:68-84 | `HELP` under the matrix `3,3,2,5` is `HIAT` |
| HillCipher.HelpEncryptionExample | ciphers/hill_cipher.py:68-84 | `encrypt("HELP", "3,3,2,5")` returns `HIAT` |
| PermutationCipher.KeyOrder | ciphers/permutation_cipher.py:6-10 | the order has one entry per key character, spaces included |
| PermutationCipher.KeyOrderIsOrder | ciphers/permutation_cipher.py:6-10 | the key order is a permutation of the columns, sorted by upper-cased character with ties left to right |
| PermutationCipher.Rows | ciphers/permutation_cipher.py:18-21 | cutting a text into rows gives rows of exactly the key length |
| PermutationCipher.ColumnsInOrder | ciphers/permutation_cipher.py:37-40 | reading the grid in key order gives one column per key character, each as tall as the grid |
| PermutationCipher.WholeRows | ciphers/permutation_cipher.py:54-65 | the whole rows of a text are its longest prefix whose length is a multiple of the key length |
| PermutationCipher.Stretches | ciphers/permutation_cipher.py:60-65 | the ciphertext is cut into one run per column, each as tall as the grid |
| PermutationCipher.FilledGrid | ciphers/permutation_cipher.py:57-65 | the filled grid has `len // k` rows of `k` cells |
| PermutationCipher.Encrypt | ciphers/permutation_cipher.py:24-42 | the method computes the specified encryption: empty-key error, empty text, else the columns read out in key order |
| PermutationCipher.CreateGrid | ciphers/permutation_cipher.py:12-22 | the padding loop and row loop give the rows of the `X`-padded text |
| PermutationCipher.ReadColumns | ciphers/permutation_cipher.py:37-40 | the nested loops read the columns in key order |
| PermutationCipher.Decrypt | ciphers/permutation_cipher.py:44-72 | the method computes the specified decryption |
| PermutationCipher.FillColumns | ciphers/permutation_cipher.py:57-65 | filling the array grid in place puts run `j` of the ciphertext into column `key_order[j]` |
| PermutationCipher.ReadRows | ciphers/permutation_cipher.py:68-70 | reading the filled grid row by row gives the untransposed text |
| PermutationCipher.FlattenRows | ciphers/permutation_cipher.py:12-22 | the rows concatenate back to the padded text |
| PermutationCipher.RowsFlatten | ciphers/permutation_cipher.py:12-22 | cutting the concatenated rows gives the rows back |
| PermutationCipher.UntransposeTransposed | ciphers/permutation_cipher.py:24-72 | untransposing a transposition gives the padded text back |
| PermutationCipher.TransposeUntransposed | ciphers/permutation_cipher.py:24-72 | transposing an untransposition gives the whole rows of the text |
| PermutationCipher.EncryptionLength | ciphers/permutation_cipher.py:32-42 | the ciphertext length is the clean length rounded up to a multiple of the key length |
| PermutationCipher.DecryptionLength | ciphers/permutation_cipher.py:54-65 | the decryption length is `(len // k) * k`; letters beyond the last full row are dropped |
| PermutationCipher.DecryptEncrypt | ciphers/permutation_cipher.py:24-72 | decrypting an encryption gives the `X`-padded clean plaintext |
| PermutationCipher.DecryptTransposed | ciphers/permutation_cipher.py:44-72 | decrypting the transposition of a padded letter text gives it back |
| PermutationCipher.EncryptDecrypt | ciphers/permutation_cipher.py:24-72 | encrypting a decryption gives the whole rows of the clean ciphertext |
| PermutationCipher.SwapExample | ciphers/permutation_cipher.py:24-42 | key `BA` orders the columns `[1, 0]` and transposes `ABCD` to `BDAC` |
| PermutationCipher.SwapEncryptionExample | ciphers/permutation_cipher.py:24-42 | `encrypt("ABCD", "BA")` returns `BDAC` |
| PlayfairCipher.Alphabet25 | ciphers/playfair_cipher.py:8 | the Playfair alphabet is the 25 letters without `J` |
| PlayfairCipher.Alpha25Literal | ciphers/playfair_cipher.py:8 | the Playfair alphabet is the literal string of the Python code |
| PlayfairCipher.Alpha25Members | ciphers/playfair_cipher.py:8 | a character is in the Playfair alphabet exactly when it is an upper-case letter other than `J` |
| PlayfairCipher.KeyChars | ciphers/playfair_cipher.py:13-24 | the 25 square letters start with the distinct key letters in first-occurrence order (`J` read as `I`), followed by the unused letters in alphabet order |
| PlayfairCipher.KeySquareFacts | ciphers/playfair_cipher.py:11-34 | the square letters are each of the 25 letters exactly once, with key letters first and the rest ascending |
| PlayfairCipher.Square | ciphers/playfair_cipher.py:26-32 | the square is 5 rows of 5 |
| PlayfairCipher.CreateKeySquare | ciphers/playfair_cipher.py:11-34 | the loops build the square of the key letters |
| PlayfairCipher.BuildSquare | ciphers/playfair_cipher.py:26-32 | the nested loops lay out the 25 letters row by row |
| PlayfairCipher.FindPosition | ciphers/playfair_cipher.py:36-42 | the search returns the first position holding the character, and nothing exactly when it is absent |
| PlayfairCipher.Locate | ciphers/playfair_cipher.py:36-42 | every Playfair letter has a position in the square holding it |
| PlayfairCipher.Move | ciphers/playfair_cipher.py:79-87 | the row, column and rectangle rules stay inside the grid |
| PlayfairCipher.Pair | ciphers/playfair_cipher.py:74-90 | a digraph encrypts to two Playfair letters |
| PlayfairCipher.PlayfairText | ciphers/playfair_cipher.py:46 | the cleaned text with `J` replaced has only Playfair letters |
| PlayfairCipher.PreparedPairs | ciphers/playfair_cipher.py:49-62 | the prepared text has even length, at most twice the input, and only Playfair letters |
| PlayfairCipher.Prepared | ciphers/playfair_cipher.py:44-64 | the prepared text has only Playfair letters, so no `J` |
| PlayfairCipher.PrepareText | ciphers/playfair_cipher.py:44-64 | the `while` loop with its manual index computes the prepared text |
| PlayfairCipher.PreparedStep | ciphers/playfair_cipher.py:51-62 | one loop step: a last letter or a doubled letter gets `X` after it, two different letters pass as a pair |
| PlayfairCipher.DigraphsDiffer | ciphers/playfair_cipher.py:49-62 | each prepared digraph has two different letters unless its first letter is `X` |
| PlayfairCipher.PreparedDistinctPairs | ciphers/playfair_cipher.py:49-62 | a text already made of distinct pairs is prepared unchanged |
| PlayfairCipher.HelloPrepared | ciphers/playfair_cipher.py:55-58 | `HELLO` is prepared as `HELXLO` |
| PlayfairCipher.Encrypt | ciphers/playfair_cipher.py:66-92 | the method computes the specified encryption, empty-key error included |
| PlayfairCipher.EncryptPairs | ciphers/playfair_cipher.py:74-90 | the loop over digraphs encrypts each pair in turn |
| PlayfairCipher.Decrypt | ciphers/playfair_cipher.py:94-123 | the method computes the specified decryption, empty-key error included |
| PlayfairCipher.DecryptPairs | ciphers/playfair_cipher.py:102-121 | the loop decrypts each pair and stops before an unpaired last letter |
| PlayfairCipher.TransformPair | ciphers/playfair_cipher.py:75-90 | locating and moving the two letters gives the specified pair |
| PlayfairCipher.NewPositions | ciphers/playfair_cipher.py:79-87 | the branch on row, column or rectangle gives the specified positions |
| PlayfairCipher.FindInSquare | ciphers/playfair_cipher.py:76-77 | the search in a key square finds the letter's position |
| PlayfairCipher.DigraphsLength | ciphers/playfair_cipher.py:74-92 | digraph processing gives the even part of the input length |
| PlayfairCipher.DigraphsDropLast | ciphers/playfair_cipher.py:103-104 | an unpaired last letter is ignored |
| PlayfairCipher.MoveInverse | ciphers/playfair_cipher.py:79-118 | the decryption rules undo the encryption rules on positions; the rectangle rule is its own inverse |
| PlayfairCipher.PairInverse | ciphers/playfair_cipher.py:74-121 | decrypting an encrypted digraph gives it back |
| PlayfairCipher.DigraphsInverse | ciphers/playfair_cipher.py:74-121 | decrypting the encryption of an even-length letter text gives it back |
| PlayfairCipher.EncryptionLength | ciphers/playfair_cipher.py:66-92 | the ciphertext has the prepared length |
| PlayfairCipher.EmptyKey | ciphers/playfair_cipher.py:67-96 | encryption and decryption fail exactly for an empty raw key, with the empty-key message |
| PlayfairCipher.DecryptEncrypt | ciphers/playfair_cipher.py:66-123 | decrypting an encryption gives the prepared plaintext |
| PlayfairCipher.DecryptOddLength | ciphers/playfair_cipher.py:99-104 | an odd-length ciphertext is decrypted without its last letter |
| PlayfairCipher.RoundTripDistinctPairs | ciphers/playfair_cipher.py:44-123 | a plaintext made of distinct pairs comes back exactly |
| CryptoUtils.FloorMod | utils/crypto_utils.py:85 | Python's `%`: the remainder is smaller than the divisor in size, agrees with Dafny's for a positive divisor, and completes floor division |
| CryptoUtils.GcdLoop | utils/crypto_utils.py:82-86 | the loop's result is, up to sign, the gcd of the absolute values; for a positive second argument or non-negative inputs it is the gcd; with `b = 0` it returns `a` itself |
| CryptoUtils.GcdLoopAffine | utils/crypto_utils.py:112 | the loop's gcd with 26 is the gcd the affine cipher checks |
| CryptoUtils.CheckOf | utils/crypto_utils.py:91-142 | a valid check has an empty message, and for a known type the message is empty exactly when the key is valid |
| CryptoUtils.Validation | utils/crypto_utils.py:89-142 | the same for `validate_key`; an unknown type is never valid |
| CryptoUtils.ValidateKey | utils/crypto_utils.py:89-142 | updating the result record branch by branch computes the specified check, parse failures included |
| CryptoUtils.CheckAffine | utils/crypto_utils.py:108-117 | the affine branch computes the specified check |
| CryptoUtils.CheckHill | utils/crypto_utils.py:125-135 | the Hill branch computes the specified check |
| CryptoUtils.ParseParts | utils/crypto_utils.py:128 | the list comprehension of `int` parses every part or fails |
| CryptoUtils.ShiftValid | utils/crypto_utils.py:94-99 | a shift key is valid exactly when it is an integer in `[0, 25]`; a non-integer gives the format message |
| CryptoUtils.ShiftValidatorStricter | utils/crypto_utils.py:94-99 | key `26` is refused by the validator though the cipher treats it as key `0` |
| CryptoUtils.SubstitutionValid | utils/crypto_utils.py:101-106 | a substitution key is valid exactly when, upper-cased without spaces, it has 26 distinct characters |
| CryptoUtils.SubstitutionAcceptedIsValid | utils/crypto_utils.py:101-106 | every key the substitution cipher accepts passes the validator |
| CryptoUtils.SubstitutionValidatorLooser | utils/crypto_utils.py:101-106 | 25 letters and a digit pass the validator but are refused by the cipher |
| CryptoUtils.AffineValid | utils/crypto_utils.py:108-117 | an affine key is valid exactly when the affine cipher accepts it; without two comma parts the message is the format message |
| CryptoUtils.LetterKeyValid | utils/crypto_utils.py:119-123 | a Vigenère, permutation or Playfair key is valid exactly when it has a letter and only letters and spaces |
| CryptoUtils.LetterKeyAccepted | utils/crypto_utils.py:119-123 | a key valid for those types is accepted by the three ciphers |
| CryptoUtils.HillValid | utils/crypto_utils.py:125-135 | a Hill key is valid exactly when the Hill cipher accepts it |
| CryptoUtils.OneTimePadUnchecked | utils/crypto_utils.py:91-142 | the one-time pad has no branch: every key gives invalid with an empty message |
| CryptoUtils.RandInt | utils/crypto_utils.py:45 | a drawn `randint(lo, hi)` lies in `[lo, hi]` |
| CryptoUtils.CoprimeValuesCoprime | utils/crypto_utils.py:54 | every value of the coprime list is coprime with 26 |
| CryptoUtils.Shuffled | utils/crypto_utils.py:48-49 | a shuffle is a rearrangement of the pool |
| CryptoUtils.ShuffledNoRepeats | utils/crypto_utils.py:48-49 | a shuffle of distinct letters has no repeats |
| CryptoUtils.ShuffledPermutation | utils/crypto_utils.py:47-50 | a shuffled alphabet is a permutation of the alphabet |
| CryptoUtils.RandomLetters | utils/crypto_utils.py:60-61 | the drawn letters have the drawn length and are upper-case |
| CryptoUtils.GenerateHillKey | utils/crypto_utils.py:63-69 | the rejection loop returns the first drawn matrix whose determinant is coprime with 26, printed as four comma-separated integers |
| CryptoUtils.DeterminantCoprime | utils/crypto_utils.py:67-68 | the loop's test holds exactly for matrices invertible modulo 26 |
| CryptoUtils.GenerateRandomKey | utils/crypto_utils.py:42-79 | every generated key is valid for its type, and an unknown type gives the empty string |
| CryptoUtils.GenerateKeyOf | utils/crypto_utils.py:42-79 | per cipher kind, the generated key passes that kind's check |
| CryptoUtils.DrawnKeyValid | utils/crypto_utils.py:44-77 | every key drawn without the Hill loop passes its check |
| CryptoUtils.ShiftKeyValid | utils/crypto_utils.py:44-45 | a generated shift key parses to a value in `[1, 25]` and is valid |
| CryptoUtils.SubstitutionKeyValid | utils/crypto_utils.py:47-50 | a generated substitution key passes the validator and is accepted by the cipher unchanged |
| CryptoUtils.PermutationKeyValid | utils/crypto_utils.py:101-106 | any permutation of the alphabet passes the validator and the cipher unchanged |
| CryptoUtils.AffineKeyValid | utils/crypto_utils.py:52-57 | a generated affine key is valid and parses back to the drawn pair |
| CryptoUtils.LettersKeyValid | utils/crypto_utils.py:59-77 | a generated Vigenère, permutation or Playfair key is valid |
| CryptoUtils.MatrixKeyValid | utils/crypto_utils.py:63-135 | a printed matrix is valid exactly when it is invertible modulo 26, and then parses back to itself |
| CryptoUtils.Counts | utils/crypto_utils.py:16-22 | there is one count per letter |
| CryptoUtils.AnalyzeText | utils/crypto_utils.py:10-39 | the counting loop and the percentage loop compute the specified analysis |
| CryptoUtils.CountLetters | utils/crypto_utils.py:19-22 | the loop computes each letter's occurrence count and the letter total |
| CryptoUtils.CountsSum | utils/crypto_utils.py:19-22 | the counts add up to the letter total |
| CryptoUtils.LetterCountIsCleanLength | utils/crypto_utils.py:12-22 | the letter total of the upper-cased text is the length of the clean text |
| CryptoUtils.TotalIsSum | utils/crypto_utils.py:17-33 | `total_characters` is the sum of the counts and the clean length |
| CryptoUtils.NoLetters | utils/crypto_utils.py:27-38 | with no letters every percentage is 0, the ranking is the alphabet, and most and least common are `A` and `Z` |
| CryptoUtils.PercentOrder | utils/crypto_utils.py:27-30 | percentages order the letters exactly as counts do, so sorting on counts gives the same ranking |
| CryptoUtils.PercentsSum | utils/crypto_utils.py:27 | with letters present the percentages add up to 100 |
| CryptoUtils.OrderFacts | utils/crypto_utils.py:30 | the ranking is a permutation of the letters, by decreasing count, equal counts in alphabet order |
| CryptoUtils.RankingOrder | utils/crypto_utils.py:30-36 | `sorted_frequency` lists every letter once with its own percentage, from highest to lowest, ties in alphabet order |
| CryptoUtils.RankedByPercent | utils/crypto_utils.py:30 | the ranked pairs are non-increasing in percentage, ties in alphabet order |
| CryptoUtils.RankedLetters | utils/crypto_utils.py:30 | the ranked pairs hold every letter once with its own percentage |
| CryptoUtils.MostCommon | utils/crypto_utils.py:37 | `most_common` has the highest count and is the first such letter in the alphabet |
| CryptoUtils.LeastCommon | utils/crypto_utils.py:38 | `least_common` has the lowest count and is the last such letter in the alphabet |

## Left out

- The web application, the file processor and the file handler: routes,
  requests, JSON, uploads, file reads and writes, ZIP packaging and base64
  are I/O.
- `encrypt_bytes` of the base class is not modelled. It depends on `chr`
  and on UTF-8 encoding with errors ignored.
- The one-time pad's key files are not modelled: `generate_key_file`,
  `read_key_from_file` and the `file:` branch of `_prepare_key`. They are
  file I/O and randomness. `OneTimePadCipher.Encrypt` and
  `OneTimePadCipher.Decrypt` require the key not to start with `file:`.
- Randomness: each `random.randint`, `random.choice` and `random.shuffle`
  is a value taken from a `draws` function passed in. A shuffle is modelled
  as repeated draws from the remaining pool, not as CPython's algorithm.
  Any shuffle is a rearrangement, so the proved validity does not depend on
  which one is used.
- CryptoUtils.GenerateHillKey: requires that some drawn candidate matrix
  is invertible modulo 26, because the Python loop has no bound. The model
  does not capture a loop that never ends.
- Floating point: percentages are exact reals. Python's `/` may round, so
  `CryptoUtils.PercentsSum` holds exactly only for the reals. Letters with
  no occurrences get `0.0` where Python has the integer `0`.
- The Hill determinant is the exact integer `a*d - b*c` rather than the
  rounded NumPy float.
- The branch of `_matrix_mod_inverse` for matrices larger than 2×2
  (ciphers/hill_cipher.py:37-39) is not modelled. It is never reached:
  key parsing accepts exactly four numbers, so every key matrix is 2×2.
- Fixed-width integers: NumPy products of large key entries could overflow
  64 bits. The model multiplies unbounded integers.
- Unicode: `isalpha`, `isspace` and `upper` are ASCII only. `int()` parses
  optional surrounding whitespace, an optional sign and ASCII digits. It
  does not model underscores or non-ASCII digits.
- Builtins.ParseInt: does not model CPython's limit of 4300 digits on
  converting a decimal string to `int` (Python 3.11 and later). The model
  parses numbers of any length. For a key with more digits the program
  raises `ValueError`: the shift cipher reports its invalid-key message, the
  affine and Hill ciphers re-raise the limit message, and `validate_key`
  reports its format message. The model instead parses the number.
- The `except Exception` branch of `validate_key` is not modelled. For
  string inputs only `ValueError` can occur.
- BaseCipher.ModInverse: requires `m > 0`. Every caller passes 26.
- The permutation cipher's decrypt grid starts with empty strings in Python
  and with space cells in the model. Every cell is overwritten before it is
  read, so the output is the same.
- PlayfairCipher.DecryptEncrypt: states only decrypt after encrypt. Encrypt
  after decrypt is not a round trip, because decryption output is prepared
  again, and a doubled letter gets an `X` inserted.
- PermutationCipher.Encrypt: the output is proved to be the columns of the
  padded grid, with round trips in both directions. It is not separately
  stated as a multiset permutation of the padded text.
