/** The Playfair cipher: a 5x5 square of the 25 letters without J, led by
    the letters of the key, and the row, column and rectangle rules applied
    to the digraphs of the prepared text. */
module PlayfairCipher {
  import opened Builtins
  import opened BaseCipher

  const EMPTY_KEY_ERROR: string := "Playfair cipher key cannot be empty"

  /** Letter `i` of the alphabet without J. */
  function Alpha25Letter(i: int): (c: char)
    requires 0 <= i < 25
  {
    if i < 9 then ('A' as int + i) as char else ('A' as int + i + 1) as char
  }

  /** The 25 letters without J, in order. */
  function Alphabet25(): (s: string)
    ensures |s| == 25 && forall i :: 0 <= i < 25 ==> s[i] == Alpha25Letter(i)
  {
    seq(25, Alpha25Letter)
  }

  /** The Playfair alphabet: I and J share one cell. */
  const ALPHA25: string := Alphabet25()

  lemma Alpha25Literal()
    ensures ALPHA25 == "ABCDEFGHIKLMNOPQRSTUVWXYZ"
  {
    assert ALPHA25[..13] == "ABCDEFGHIKLMN";
    assert ALPHA25[13..] == "OPQRSTUVWXYZ";
    assert ALPHA25 == ALPHA25[..13] + ALPHA25[13..];
  }

  /** The alphabet is exactly the upper-case letters other than J. */
  lemma Alpha25Members(c: char)
    ensures c in ALPHA25 <==> IsPlayfairLetter(c)
  {
    if IsUpperLetter(c) && c != 'J' {
      var i := if c < 'J' then c as int - 'A' as int else c as int - 'A' as int - 1;
      assert ALPHA25[i] == c;
    }
  }

  lemma Alpha25Increasing()
    ensures forall i, j :: 0 <= i < j < 25 ==> ALPHA25[i] < ALPHA25[j]
  {
  }

  /** A letter of the Playfair alphabet. */
  predicate IsPlayfairLetter(c: char) {
    IsUpperLetter(c) && c != 'J'
  }

  /** Every character of `s` is a letter of the Playfair alphabet. */
  predicate InAlphabet(s: string) {
    forall i :: 0 <= i < |s| ==> IsPlayfairLetter(s[i])
  }

  // ---------------------------------------------------------------------------
  // _create_key_square

  /** `key.upper().replace('J', 'I')` */
  function KeyText(key: string): string {
    ReplaceChar(Upper(key), 'J', 'I')
  }

  /** The letters of `s` that are in the alphabet and not yet collected,
      appended to `acc` in order of first occurrence. */
  function Collect(acc: seq<char>, s: string): (r: seq<char>)
    decreases |s|
  {
    if |s| == 0 then acc
    else
      var r := Collect(acc, s[..|s| - 1]);
      var c := s[|s| - 1];
      if c in ALPHA25 && c !in r then r + [c] else r
  }

  /** The distinct alphabet letters of the key, in order of first occurrence. */
  function KeyLetters(key: string): seq<char> {
    Collect([], KeyText(key))
  }

  /** A key square: each letter of the alphabet exactly once. */
  predicate IsSquareChars(chars: seq<char>) {
    |chars| == 25 && NoRepeats(chars) && InAlphabet(chars) &&
    forall c :: IsPlayfairLetter(c) ==> c in chars
  }

  /** The 25 characters of the key square in reading order: the key letters
      first, then the letters the key does not use, in alphabet order. */
  function KeyChars(key: string): (chars: seq<char>)
    ensures IsSquareChars(chars)
    ensures |KeyLetters(key)| <= 25 && chars[..|KeyLetters(key)|] == KeyLetters(key)
    ensures forall c :: c in KeyLetters(key) <==> c in KeyText(key) && IsPlayfairLetter(c)
    ensures forall i, j :: |KeyLetters(key)| <= i < j < 25 ==> chars[i] < chars[j]
  {
    KeySquareFacts(key);
    Collect(KeyLetters(key), ALPHA25)
  }

  /** The 5x5 square: row `r`, column `c` holds character `5 * r + c`. */
  function Square(chars: seq<char>): (square: seq<seq<char>>)
    requires |chars| == 25
    ensures |square| == 5 && forall r :: 0 <= r < 5 ==> |square[r]| == 5
  {
    seq(5, r requires 0 <= r < 5 => seq(5, c requires 0 <= c < 5 => chars[5 * r + c]))
  }

  method CreateKeySquare(key: string) returns (square: seq<seq<char>>)
    ensures square == Square(KeyChars(key))
  {
    var k := ReplaceChar(Upper(key), 'J', 'I');
    var keyChars: seq<char> := [];
    for i := 0 to |k|
      invariant keyChars == Collect([], k[..i])
    {
      var c := k[i];
      assert k[..i + 1][..i] == k[..i];
      if c in ALPHA25 && c !in keyChars {
        keyChars := keyChars + [c];
      }
    }
    assert k[..|k|] == k;
    ghost var fromKey := keyChars;
    for i := 0 to |ALPHA25|
      invariant keyChars == Collect(fromKey, ALPHA25[..i])
    {
      var c := ALPHA25[i];
      assert ALPHA25[..i + 1][..i] == ALPHA25[..i];
      if c !in keyChars {
        keyChars := keyChars + [c];
      }
    }
    assert ALPHA25[..|ALPHA25|] == ALPHA25;
    assert keyChars == KeyChars(key);
    square := BuildSquare(keyChars);
  }

  /** The nested loops that lay the 25 characters out row by row. */
  method BuildSquare(keyChars: seq<char>) returns (square: seq<seq<char>>)
    requires |keyChars| == 25
    ensures square == Square(keyChars)
  {
    ghost var full := Square(keyChars);
    square := [];
    for i := 0 to 5
      invariant square == full[..i]
    {
      var row: seq<char> := [];
      for j := 0 to 5
        invariant row == full[i][..j]
      {
        assert full[i][..j + 1] == full[i][..j] + [keyChars[i * 5 + j]];
        row := row + [keyChars[i * 5 + j]];
      }
      assert full[i][..5] == full[i];
      assert full[..i + 1] == full[..i] + [row];
      square := square + [row];
    }
    assert full[..5] == full;
  }

  // ---------------------------------------------------------------------------
  // _find_position

  /** `_find_position(char, square)`: the first cell in reading order that
      holds `c`, or nothing. */
  method FindPosition(c: char, square: seq<seq<char>>) returns (pos: Option<(nat, nat)>)
    requires |square| == 5 && forall r :: 0 <= r < 5 ==> |square[r]| == 5
    ensures pos.Some? ==> pos.value.0 < 5 && pos.value.1 < 5 && square[pos.value.0][pos.value.1] == c
    ensures pos.Some? ==> forall r, col :: 0 <= r < 5 && 0 <= col < 5 && square[r][col] == c ==>
      r > pos.value.0 || (r == pos.value.0 && col >= pos.value.1)
    ensures pos.None? <==> forall r, col :: 0 <= r < 5 && 0 <= col < 5 ==> square[r][col] != c
  {
    for i := 0 to 5
      invariant forall r, col :: 0 <= r < i && 0 <= col < 5 ==> square[r][col] != c
    {
      for j := 0 to 5
        invariant forall col :: 0 <= col < j ==> square[i][col] != c
      {
        if square[i][j] == c {
          return Some((i, j));
        }
      }
    }
    return None;
  }

  /** The cell at row `r`, column `c`. */
  function At(chars: seq<char>, r: int, c: int): char
    requires |chars| == 25 && 0 <= r < 5 && 0 <= c < 5
  {
    chars[5 * r + c]
  }

  /** Where letter `x` stands in the square. */
  function Locate(chars: seq<char>, x: char): (pos: (nat, nat))
    requires IsSquareChars(chars) && IsPlayfairLetter(x)
    ensures pos.0 < 5 && pos.1 < 5 && At(chars, pos.0, pos.1) == x
  {
    var k := IndexOf(chars, x);
    (RowOf(k), k - 5 * RowOf(k))
  }

  /** The row of the `k`-th cell, `k / 5`, written without division. */
  function RowOf(k: nat): (r: nat)
    requires k < 25
    ensures r < 5 && 5 * r <= k < 5 * r + 5
  {
    if k < 5 then 0 else if k < 10 then 1 else if k < 15 then 2 else if k < 20 then 3 else 4
  }

  // ---------------------------------------------------------------------------
  // The digraph rules

  predicate InGrid(p: (nat, nat)) {
    p.0 < 5 && p.1 < 5
  }

  /** The rules on positions: in one row each letter moves one column (right
      when encrypting, left when decrypting), in one column one row (down,
      up), otherwise each letter takes the other's column. Python's `%` with
      divisor 5 agrees with Dafny's. */
  function Move(p: (nat, nat), q: (nat, nat), forward: bool): (moved: ((nat, nat), (nat, nat)))
    requires InGrid(p) && InGrid(q)
    ensures InGrid(moved.0) && InGrid(moved.1)
  {
    var d := if forward then 1 else -1;
    if p.0 == q.0 then ((p.0, (p.1 + d) % 5), (q.0, (q.1 + d) % 5))
    else if p.1 == q.1 then (((p.0 + d) % 5, p.1), ((q.0 + d) % 5, q.1))
    else ((p.0, q.1), (q.0, p.1))
  }

  /** One digraph transformed. */
  function Pair(chars: seq<char>, a: char, b: char, forward: bool): (r: string)
    requires IsSquareChars(chars) && IsPlayfairLetter(a) && IsPlayfairLetter(b)
    ensures |r| == 2 && IsPlayfairLetter(r[0]) && IsPlayfairLetter(r[1])
  {
    var moved := Move(Locate(chars, a), Locate(chars, b), forward);
    [At(chars, moved.0.0, moved.0.1), At(chars, moved.1.0, moved.1.1)]
  }

  /** The digraphs of `s` transformed one after the other; a last unpaired
      letter is dropped. */
  function Digraphs(chars: seq<char>, s: string, forward: bool): (r: string)
    requires IsSquareChars(chars) && InAlphabet(s)
    decreases |s|
  {
    if |s| < 2 then "" else Pair(chars, s[0], s[1], forward) + Digraphs(chars, s[2..], forward)
  }

  // ---------------------------------------------------------------------------
  // _prepare_text

  /** The cleaned text with J read as I. */
  function PlayfairText(text: string): (t: string)
    ensures InAlphabet(t)
  {
    ReplaceChar(CleanText(text, false), 'J', 'I')
  }

  /** The loop of `_prepare_text`: a pair of different letters is kept; a
      letter followed by itself, or left over at the end, is paired with X.
      The result has even length, at least that of `t` and at most twice. */
  function PreparedPairs(t: string): (r: string)
    ensures |r| % 2 == 0 && |t| <= |r| <= 2 * |t|
    ensures InAlphabet(t) ==> InAlphabet(r)
    decreases |t|
  {
    if |t| == 0 then ""
    else if |t| == 1 then [t[0], 'X']
    else if t[0] == t[1] then [t[0], 'X'] + PreparedPairs(t[1..])
    else [t[0], t[1]] + PreparedPairs(t[2..])
  }

  /** `_prepare_text(text)` */
  function Prepared(text: string): (p: string)
    ensures InAlphabet(p)
  {
    PreparedPairs(PlayfairText(text))
  }

  method PrepareText(text: string) returns (prepared: string)
    ensures prepared == Prepared(text)
  {
    var t := ReplaceChar(CleanText(text, false), 'J', 'I');
    prepared := "";
    var i := 0;
    while i < |t|
      invariant 0 <= i <= |t|
      invariant prepared + PreparedPairs(t[i..]) == PreparedPairs(t)
      decreases |t| - i
    {
      PreparedStep(t, i);
      if i == |t| - 1 {
        Regroup(prepared, [t[i], 'X'], PreparedPairs(t[i + 1..]));
        prepared := prepared + [t[i], 'X'];
        i := i + 1;
      } else if t[i] == t[i + 1] {
        Regroup(prepared, [t[i], 'X'], PreparedPairs(t[i + 1..]));
        prepared := prepared + [t[i], 'X'];
        i := i + 1;
      } else {
        Regroup(prepared, [t[i], t[i + 1]], PreparedPairs(t[i + 2..]));
        prepared := prepared + [t[i], t[i + 1]];
        i := i + 2;
      }
    }
  }

  lemma Regroup(a: string, b: string, c: string)
    ensures (a + b) + c == a + (b + c)
  {
  }

  /** One step of the loop of `_prepare_text`. */
  lemma PreparedStep(t: string, i: nat)
    requires i < |t|
    ensures i == |t| - 1 ==> PreparedPairs(t[i..]) == [t[i], 'X'] + PreparedPairs(t[i + 1..])
    ensures i < |t| - 1 && t[i] == t[i + 1] ==> PreparedPairs(t[i..]) == [t[i], 'X'] + PreparedPairs(t[i + 1..])
    ensures i < |t| - 1 && t[i] != t[i + 1] ==> PreparedPairs(t[i..]) == [t[i], t[i + 1]] + PreparedPairs(t[i + 2..])
  {
    var rest := t[i..];
    if i < |t| - 1 {
      assert rest[1..] == t[i + 1..];
      assert rest[2..] == t[i + 2..];
    }
  }

  // ---------------------------------------------------------------------------
  // encrypt and decrypt

  /** `PlayfairCipher.encrypt`: an empty key is refused. */
  function Encryption(plaintext: string, key: string): Result<string> {
    if |key| == 0 then Err(EMPTY_KEY_ERROR)
    else Ok(Digraphs(KeyChars(key), Prepared(plaintext), true))
  }

  /** `PlayfairCipher.decrypt`: the cleaned text is split into digraphs as
      it is, without preparation. */
  function Decryption(ciphertext: string, key: string): Result<string> {
    if |key| == 0 then Err(EMPTY_KEY_ERROR)
    else Ok(Digraphs(KeyChars(key), PlayfairText(ciphertext), false))
  }

  method Encrypt(plaintext: string, key: string) returns (r: Result<string>)
    ensures r == Encryption(plaintext, key)
  {
    if |key| == 0 {
      return Err(EMPTY_KEY_ERROR);
    }
    var square := CreateKeySquare(key);
    var prepared := PrepareText(plaintext);
    var encrypted := EncryptPairs(square, prepared, KeyChars(key));
    return Ok(encrypted);
  }

  /** The loop of `encrypt`, over the digraphs of the prepared text. */
  method EncryptPairs(square: seq<seq<char>>, prepared: string, ghost chars: seq<char>)
    returns (encrypted: string)
    requires IsSquareChars(chars) && square == Square(chars)
    requires InAlphabet(prepared) && |prepared| % 2 == 0
    ensures encrypted == Digraphs(chars, prepared, true)
  {
    encrypted := "";
    var i := 0;
    while i < |prepared|
      invariant 0 <= i <= |prepared| && i % 2 == 0
      invariant encrypted + Digraphs(chars, prepared[i..], true) == Digraphs(chars, prepared, true)
      decreases |prepared| - i
    {
      EvenBefore(i, |prepared|);
      var char1, char2 := prepared[i], prepared[i + 1];
      var pair := TransformPair(square, char1, char2, chars, true);
      DigraphsStep(chars, prepared, i, true);
      encrypted := encrypted + pair;
      ParityStep(i + 2);
      i := i + 2;
    }
    DigraphsEnd(chars, prepared, i, true);
  }

  method Decrypt(ciphertext: string, key: string) returns (r: Result<string>)
    ensures r == Decryption(ciphertext, key)
  {
    if |key| == 0 {
      return Err(EMPTY_KEY_ERROR);
    }
    var square := CreateKeySquare(key);
    var cleaned := ReplaceChar(CleanText(ciphertext, false), 'J', 'I');
    assert cleaned == PlayfairText(ciphertext);
    var decrypted := DecryptPairs(square, cleaned, KeyChars(key));
    return Ok(decrypted);
  }

  /** The loop of `decrypt`, which stops before an unpaired last letter. */
  method DecryptPairs(square: seq<seq<char>>, cleaned: string, ghost chars: seq<char>)
    returns (decrypted: string)
    requires IsSquareChars(chars) && square == Square(chars) && InAlphabet(cleaned)
    ensures decrypted == Digraphs(chars, cleaned, false)
  {
    decrypted := "";
    var i := 0;
    while i < |cleaned|
      invariant 0 <= i <= |cleaned|
      invariant decrypted + Digraphs(chars, cleaned[i..], false) == Digraphs(chars, cleaned, false)
      decreases |cleaned| - i
    {
      if i + 1 >= |cleaned| {
        break;
      }
      var char1, char2 := cleaned[i], cleaned[i + 1];
      var pair := TransformPair(square, char1, char2, chars, false);
      DigraphsStep(chars, cleaned, i, false);
      decrypted := decrypted + pair;
      i := i + 2;
    }
    DigraphsEnd(chars, cleaned, i, false);
  }

  /** The body of the loops of `encrypt` and `decrypt`: find both letters,
      apply the rule, read the new cells. */
  method TransformPair(square: seq<seq<char>>, char1: char, char2: char, ghost chars: seq<char>, forward: bool)
    returns (pair: string)
    requires IsSquareChars(chars) && square == Square(chars) && IsPlayfairLetter(char1) && IsPlayfairLetter(char2)
    ensures pair == Pair(chars, char1, char2, forward)
  {
    var pos1 := FindInSquare(char1, square, chars);
    var pos2 := FindInSquare(char2, square, chars);
    var newPos1, newPos2 := NewPositions(pos1.value, pos2.value, forward);
    SquareAt(chars, newPos1.0, newPos1.1);
    SquareAt(chars, newPos2.0, newPos2.1);
    pair := [square[newPos1.0][newPos1.1]] + [square[newPos2.0][newPos2.1]];
  }

  /** The branches of the loop bodies of `encrypt` (`forward`) and
      `decrypt` that choose the new cells. */
  method NewPositions(pos1: (nat, nat), pos2: (nat, nat), forward: bool) returns (newPos1: (nat, nat), newPos2: (nat, nat))
    requires InGrid(pos1) && InGrid(pos2)
    ensures (newPos1, newPos2) == Move(pos1, pos2, forward)
  {
    var d := if forward then 1 else -1;
    if pos1.0 == pos2.0 {
      newPos1 := (pos1.0, (pos1.1 + d) % 5);
      newPos2 := (pos2.0, (pos2.1 + d) % 5);
    } else if pos1.1 == pos2.1 {
      newPos1 := ((pos1.0 + d) % 5, pos1.1);
      newPos2 := ((pos2.0 + d) % 5, pos2.1);
    } else {
      newPos1 := (pos1.0, pos2.1);
      newPos2 := (pos2.0, pos1.1);
    }
  }

  /** `_find_position` on a letter of the key square, which it always
      finds. */
  method FindInSquare(c: char, square: seq<seq<char>>, ghost chars: seq<char>) returns (pos: Option<(nat, nat)>)
    requires IsSquareChars(chars) && square == Square(chars) && IsPlayfairLetter(c)
    ensures pos == Some(Locate(chars, c))
  {
    pos := FindPosition(c, square);
    FoundAtLocation(chars, c, pos);
  }

  // ---------------------------------------------------------------------------
  // The key square

  lemma {:induction false} CollectPrefix(acc: seq<char>, s: string)
    ensures |Collect(acc, s)| >= |acc| && Collect(acc, s)[..|acc|] == acc
    decreases |s|
  {
    if |s| > 0 {
      CollectPrefix(acc, s[..|s| - 1]);
    }
  }

  lemma {:induction false} CollectMembers(acc: seq<char>, s: string, c: char)
    ensures c in Collect(acc, s) <==> c in acc || (c in s && c in ALPHA25)
    decreases |s|
  {
    if |s| > 0 {
      CollectMembers(acc, s[..|s| - 1], c);
      assert s == s[..|s| - 1] + [s[|s| - 1]];
    }
  }

  lemma {:induction false} CollectNoRepeats(acc: seq<char>, s: string)
    requires NoRepeats(acc)
    ensures NoRepeats(Collect(acc, s))
    decreases |s|
  {
    if |s| > 0 {
      CollectNoRepeats(acc, s[..|s| - 1]);
    }
  }

  lemma {:induction false} CollectInAlphabet(acc: seq<char>, s: string)
    requires InAlphabet(acc)
    ensures InAlphabet(Collect(acc, s))
    decreases |s|
  {
    if |s| > 0 {
      CollectInAlphabet(acc, s[..|s| - 1]);
      Alpha25Members(s[|s| - 1]);
    }
  }

  /** The letters the alphabet pass adds come in alphabet order. */
  lemma {:induction false} CollectAlphabetOrdered(acc: seq<char>, n: nat)
    requires n <= 25
    ensures |Collect(acc, ALPHA25[..n])| >= |acc|
    ensures forall i, j :: |acc| <= i < j < |Collect(acc, ALPHA25[..n])| ==>
      Collect(acc, ALPHA25[..n])[i] < Collect(acc, ALPHA25[..n])[j]
    ensures forall i :: |acc| <= i < |Collect(acc, ALPHA25[..n])| ==>
      Collect(acc, ALPHA25[..n])[i] in ALPHA25[..n]
  {
    CollectPrefix(acc, ALPHA25[..n]);
    if n > 0 {
      CollectAlphabetOrdered(acc, n - 1);
      assert ALPHA25[..n][..n - 1] == ALPHA25[..n - 1];
      var r := Collect(acc, ALPHA25[..n - 1]);
      forall i | |acc| <= i < |r| ensures r[i] < ALPHA25[n - 1] && r[i] in ALPHA25[..n] {
        var m :| 0 <= m < n - 1 && ALPHA25[..n - 1][m] == r[i];
        Alpha25Increasing();
        assert ALPHA25[m] < ALPHA25[n - 1];
        assert ALPHA25[..n][m] == r[i];
      }
      assert ALPHA25[..n][n - 1] == ALPHA25[n - 1];
    }
  }

  /** The facts `KeyChars` promises, about its body. */
  lemma {:induction false} KeySquareFacts(key: string)
    ensures IsSquareChars(Collect(KeyLetters(key), ALPHA25))
    ensures |KeyLetters(key)| <= 25
    ensures Collect(KeyLetters(key), ALPHA25)[..|KeyLetters(key)|] == KeyLetters(key)
    ensures forall c :: c in KeyLetters(key) <==> c in KeyText(key) && IsPlayfairLetter(c)
    ensures forall i, j :: |KeyLetters(key)| <= i < j < 25 ==>
      Collect(KeyLetters(key), ALPHA25)[i] < Collect(KeyLetters(key), ALPHA25)[j]
  {
    var first := KeyLetters(key);
    var chars := Collect(first, ALPHA25);
    forall c ensures c in first <==> c in KeyText(key) && IsPlayfairLetter(c) {
      CollectMembers([], KeyText(key), c);
      Alpha25Members(c);
    }
    CollectNoRepeats([], KeyText(key));
    CollectNoRepeats(first, ALPHA25);
    CollectInAlphabet([], KeyText(key));
    CollectInAlphabet(first, ALPHA25);
    CollectPrefix(first, ALPHA25);
    forall c | IsPlayfairLetter(c) ensures c in chars {
      Alpha25Members(c);
      CollectMembers(first, ALPHA25, c);
    }
    assert |chars| == 25 by {
      assert Elems(chars) == Elems(ALPHA25) by {
        forall c ensures c in chars <==> c in ALPHA25 {
          CollectMembers(first, ALPHA25, c);
          CollectMembers([], KeyText(key), c);
        }
      }
      ElemsCard(chars);
      Alpha25Increasing();
      ElemsCard(ALPHA25);
    }
    assert |first| <= 25;
    assert ALPHA25[..25] == ALPHA25;
    CollectAlphabetOrdered(first, 25);
  }

  lemma SquareAt(chars: seq<char>, r: nat, c: nat)
    requires |chars| == 25 && r < 5 && c < 5
    ensures Square(chars)[r][c] == At(chars, r, c)
  {
  }

  /** In a key square, the letter at a cell is located at that cell. */
  lemma LocateAt(chars: seq<char>, r: nat, c: nat)
    requires IsSquareChars(chars) && r < 5 && c < 5
    ensures IsPlayfairLetter(At(chars, r, c)) && Locate(chars, At(chars, r, c)) == (r, c)
  {
    var k := IndexOf(chars, At(chars, r, c));
    assert chars[k] == chars[5 * r + c];
  }

  /** `_find_position` finds every letter of a key square, at the cell
      `Locate` names. */
  lemma FoundAtLocation(chars: seq<char>, c: char, pos: Option<(nat, nat)>)
    requires IsSquareChars(chars) && IsPlayfairLetter(c)
    requires pos.Some? ==> pos.value.0 < 5 && pos.value.1 < 5 && Square(chars)[pos.value.0][pos.value.1] == c
    requires pos.None? <==> forall r, col :: 0 <= r < 5 && 0 <= col < 5 ==> Square(chars)[r][col] != c
    ensures pos == Some(Locate(chars, c))
  {
    var p := Locate(chars, c);
    assert Square(chars)[p.0][p.1] == c;
    LocateAt(chars, pos.value.0, pos.value.1);
  }

  // ---------------------------------------------------------------------------
  // Properties

  /** The two letters of each digraph differ, unless the first is X. */
  lemma {:induction false} DigraphsDiffer(t: string)
    ensures forall m :: 0 <= m < |PreparedPairs(t)| / 2 ==>
      PreparedPairs(t)[2 * m] != PreparedPairs(t)[2 * m + 1] || PreparedPairs(t)[2 * m] == 'X'
    decreases |t|
  {
    if |t| >= 2 {
      var p := PreparedPairs(t);
      var rest := if t[0] == t[1] then t[1..] else t[2..];
      DigraphsDiffer(rest);
      assert p == p[..2] + PreparedPairs(rest);
      forall m | 1 <= m < |p| / 2
        ensures p[2 * m] != p[2 * m + 1] || p[2 * m] == 'X'
      {
        assert p[2 * m] == PreparedPairs(rest)[2 * (m - 1)];
        assert p[2 * m + 1] == PreparedPairs(rest)[2 * (m - 1) + 1];
      }
    }
  }

  /** A text of even length with no digraph of one letter doubled. */
  predicate DistinctPairs(t: string) {
    |t| % 2 == 0 && forall m :: 0 <= m < |t| / 2 ==> t[2 * m] != t[2 * m + 1]
  }

  /** Such a text is left as it is by the preparation. */
  lemma {:induction false} PreparedDistinctPairs(t: string)
    requires DistinctPairs(t)
    ensures PreparedPairs(t) == t
    decreases |t|
  {
    if |t| >= 2 {
      assert t[0] != t[1] by { assert t[2 * 0] != t[2 * 0 + 1]; }
      var rest := t[2..];
      forall m | 0 <= m < |rest| / 2 ensures rest[2 * m] != rest[2 * m + 1] {
        assert t[2 * (m + 1)] != t[2 * (m + 1) + 1];
      }
      PreparedDistinctPairs(rest);
      assert t == t[..2] + rest;
    }
  }

  /** HELLO is prepared as HE LX LO. */
  lemma {:induction false} HelloPrepared()
    ensures PreparedPairs("HELLO") == "HELXLO"
  {
    assert "HELLO"[2..] == "LLO" && "LLO"[1..] == "LO" && "LO"[2..] == "";
  }

  /** The digraph transformation keeps whole pairs only. */
  lemma {:induction false} DigraphsLength(chars: seq<char>, s: string, forward: bool)
    requires IsSquareChars(chars) && InAlphabet(s)
    ensures |Digraphs(chars, s, forward)| == |s| - |s| % 2
    decreases |s|
  {
    if |s| >= 2 {
      DigraphsLength(chars, s[2..], forward);
      ParityStep(|s|);
    }
  }

  /** The transformed text again uses only letters of the alphabet. */
  lemma {:induction false} DigraphsInAlphabet(chars: seq<char>, s: string, forward: bool)
    requires IsSquareChars(chars) && InAlphabet(s)
    ensures InAlphabet(Digraphs(chars, s, forward))
    decreases |s|
  {
    if |s| >= 2 {
      DigraphsInAlphabet(chars, s[2..], forward);
    }
  }

  /** Transforming a digraph followed by a text. */
  lemma DigraphsCons(chars: seq<char>, p: string, rest: string, forward: bool)
    requires IsSquareChars(chars) && |p| == 2 && IsPlayfairLetter(p[0]) && IsPlayfairLetter(p[1])
    requires InAlphabet(rest)
    ensures InAlphabet(p + rest)
    ensures Digraphs(chars, p + rest, forward) == Pair(chars, p[0], p[1], forward) + Digraphs(chars, rest, forward)
  {
    assert (p + rest)[2..] == rest;
  }

  lemma SplitPair(s: string)
    requires |s| >= 2
    ensures s == [s[0], s[1]] + s[2..]
  {
  }

  /** One step of the loops over digraphs. */
  lemma DigraphsStep(chars: seq<char>, s: string, i: nat, forward: bool)
    requires IsSquareChars(chars) && InAlphabet(s) && i + 1 < |s|
    ensures Digraphs(chars, s[i..], forward) ==
      Pair(chars, s[i], s[i + 1], forward) + Digraphs(chars, s[i + 2..], forward)
  {
    assert s[i..][2..] == s[i + 2..];
  }

  /** Where the loops over digraphs stop, nothing is left to transform. */
  lemma DigraphsEnd(chars: seq<char>, s: string, i: nat, forward: bool)
    requires IsSquareChars(chars) && InAlphabet(s) && i <= |s| < i + 2
    ensures Digraphs(chars, s[i..], forward) == ""
  {
  }

  /** A last unpaired letter is ignored. */
  lemma {:induction false} DigraphsDropLast(chars: seq<char>, s: string, forward: bool)
    requires IsSquareChars(chars) && InAlphabet(s) && |s| % 2 == 1
    ensures Digraphs(chars, s, forward) == Digraphs(chars, s[..|s| - 1], forward)
    decreases |s|
  {
    if |s| >= 2 {
      assert s[..|s| - 1][2..] == s[2..][..|s| - 3];
      ParityStep(|s|);
      DigraphsDropLast(chars, s[2..], forward);
    }
  }

  lemma ParityStep(n: int)
    requires n >= 2
    ensures (n - 2) % 2 == n % 2
  {
  }

  lemma EvenBefore(i: int, n: int)
    requires 0 <= i < n && i % 2 == 0 && n % 2 == 0
    ensures i + 1 < n
  {
  }

  /** One step along a row or column and one step back return to the start. */
  lemma StepBack(x: int, d: int)
    requires 0 <= x < 5 && (d == 1 || d == -1)
    ensures ((x + d) % 5 - d) % 5 == x
  {
  }

  lemma StepInjective(x: int, y: int, d: int)
    requires 0 <= x < 5 && 0 <= y < 5 && x != y && (d == 1 || d == -1)
    ensures (x + d) % 5 != (y + d) % 5
  {
  }

  /** Each rule on positions is undone by the same rule in the other
      direction. */
  lemma MoveInverse(p: (nat, nat), q: (nat, nat), forward: bool)
    requires InGrid(p) && InGrid(q)
    ensures Move(Move(p, q, forward).0, Move(p, q, forward).1, !forward) == (p, q)
  {
    var d := if forward then 1 else -1;
    var m := Move(p, q, forward);
    if p.0 == q.0 {
      assert m == ((p.0, (p.1 + d) % 5), (q.0, (q.1 + d) % 5));
      assert Move(m.0, m.1, !forward) == ((p.0, ((p.1 + d) % 5 - d) % 5), (q.0, ((q.1 + d) % 5 - d) % 5));
      StepBack(p.1, d);
      StepBack(q.1, d);
    } else if p.1 == q.1 {
      assert m == (((p.0 + d) % 5, p.1), ((q.0 + d) % 5, q.1));
      StepInjective(p.0, q.0, d);
      assert Move(m.0, m.1, !forward) == ((((p.0 + d) % 5 - d) % 5, p.1), (((q.0 + d) % 5 - d) % 5, q.1));
      StepBack(p.0, d);
      StepBack(q.0, d);
    } else {
      assert m == ((p.0, q.1), (q.0, p.1));
    }
  }

  /** So is each rule on digraphs. */
  lemma PairInverse(chars: seq<char>, a: char, b: char, forward: bool)
    requires IsSquareChars(chars) && IsPlayfairLetter(a) && IsPlayfairLetter(b)
    ensures Pair(chars, Pair(chars, a, b, forward)[0], Pair(chars, a, b, forward)[1], !forward) == [a, b]
  {
    var p, q := Locate(chars, a), Locate(chars, b);
    var moved := Move(p, q, forward);
    LocateAt(chars, moved.0.0, moved.0.1);
    LocateAt(chars, moved.1.0, moved.1.1);
    MoveInverse(p, q, forward);
  }

  /** Transforming the digraphs one way and then the other gives back a text
      of even length. */
  lemma {:induction false} DigraphsInverse(chars: seq<char>, s: string, forward: bool)
    requires IsSquareChars(chars) && InAlphabet(s) && |s| % 2 == 0
    ensures InAlphabet(Digraphs(chars, s, forward))
    ensures Digraphs(chars, Digraphs(chars, s, forward), !forward) == s
    decreases |s|
  {
    DigraphsInAlphabet(chars, s, forward);
    if |s| >= 2 {
      var p := Pair(chars, s[0], s[1], forward);
      var rest := Digraphs(chars, s[2..], forward);
      ParityStep(|s|);
      DigraphsInverse(chars, s[2..], forward);
      DigraphsCons(chars, p, rest, !forward);
      PairInverse(chars, s[0], s[1], forward);
      SplitPair(s);
    }
  }

  /** Text made of alphabet letters is left alone by cleaning and by J to I. */
  lemma PlayfairTextOfAlphabet(t: string)
    requires InAlphabet(t)
    ensures PlayfairText(t) == t
  {
    CleanTextOfUpper(t);
  }

  /** Encryption keeps the length of the prepared text. */
  lemma EncryptionLength(plaintext: string, key: string)
    requires |key| > 0
    ensures |Encryption(plaintext, key).value| == |Prepared(plaintext)|
  {
    DigraphsLength(KeyChars(key), Prepared(plaintext), true);
  }

  /** An empty key is refused in both directions, and only an empty key. */
  lemma EmptyKey(text: string, key: string)
    ensures Encryption(text, key).Err? <==> |key| == 0
    ensures Decryption(text, key).Err? <==> |key| == 0
    ensures |key| == 0 ==> Encryption(text, key).message == EMPTY_KEY_ERROR
    ensures |key| == 0 ==> Decryption(text, key).message == EMPTY_KEY_ERROR
  {
  }

  /** `decrypt(encrypt(t, key), key) == _prepare_text(t)` */
  lemma {:induction false} DecryptEncrypt(plaintext: string, key: string)
    requires Encryption(plaintext, key).Ok?
    ensures Decryption(Encryption(plaintext, key).value, key) == Ok(Prepared(plaintext))
  {
    var chars, p := KeyChars(key), Prepared(plaintext);
    var c := Digraphs(chars, p, true);
    DigraphsInverse(chars, p, true);
    PlayfairTextOfAlphabet(c);
  }

  /** `decrypt` ignores a last unpaired letter. */
  lemma {:induction false} DecryptOddLength(ciphertext: string, key: string)
    requires |key| > 0 && |PlayfairText(ciphertext)| % 2 == 1
    ensures Decryption(ciphertext, key).value ==
      Digraphs(KeyChars(key), PlayfairText(ciphertext)[..|PlayfairText(ciphertext)| - 1], false)
  {
    DigraphsDropLast(KeyChars(key), PlayfairText(ciphertext), false);
  }

  /** A text already in distinct digraphs of the alphabet survives the round
      trip unchanged. */
  lemma {:induction false} RoundTripDistinctPairs(plaintext: string, key: string)
    requires |key| > 0 && DistinctPairs(PlayfairText(plaintext))
    ensures Decryption(Encryption(plaintext, key).value, key) == Ok(PlayfairText(plaintext))
  {
    PreparedDistinctPairs(PlayfairText(plaintext));
    DecryptEncrypt(plaintext, key);
  }
}
