/** What every cipher shares: the 26-letter alphabet, the text normaliser
    `clean_text`, `format_output`, the modular inverse `mod_inverse` with its
    extended Euclidean algorithm, and two helpers the subclasses repeat
    (padding with `X` and letter-wise addition of a key stream). */
module BaseCipher {
  import opened Builtins
  import opened NumberTheory

  /** A cipher operation either returns its value or raises `ValueError(message)`. */
  datatype Result<T> = Ok(value: T) | Err(message: string)

  /** `string.ascii_uppercase` */
  const ALPHABET: string := "ABCDEFGHIJKLMNOPQRSTUVWXYZ"

  /** `alphabet_size` */
  const SIZE: nat := 26

  /** `alphabet.index(c)` for an upper-case letter. */
  function Index(c: char): (i: nat)
    requires IsUpperLetter(c)
    ensures i < SIZE
  {
    c as int - 'A' as int
  }

  /** `alphabet[i]` */
  function Letter(i: int): (c: char)
    requires 0 <= i < SIZE
    ensures IsUpperLetter(c) && Index(c) == i
  {
    ('A' as int + i) as char
  }

  /** `Letter` and `Index` agree with the alphabet string. */
  lemma AlphabetLetters()
    ensures |ALPHABET| == SIZE
    ensures forall i :: 0 <= i < SIZE ==> ALPHABET[i] == Letter(i)
    ensures forall i :: 0 <= i < SIZE ==> Index(ALPHABET[i]) == i
  {
  }

  // ---------------------------------------------------------------------------
  // clean_text

  /** `clean_text(text, keep_spaces)`: letters are kept and upper-cased; with
      `keep_spaces` each whitespace character becomes one space; everything
      else is dropped. */
  function CleanText(text: string, keepSpaces: bool): (r: string)
    ensures !keepSpaces ==> IsUpperText(r)
    ensures keepSpaces ==> forall i :: 0 <= i < |r| ==> IsUpperLetter(r[i]) || r[i] == ' '
    ensures |r| <= |text|
  {
    if |text| == 0 then ""
    else
      var rest, c := CleanText(text[..|text| - 1], keepSpaces), text[|text| - 1];
      if IsAlpha(c) then rest + [ToUpper(c)]
      else if keepSpaces && IsSpace(c) then rest + [' ']
      else rest
  }

  /** What `clean_text` does to one character. */
  function CleanChar(c: char, keepSpaces: bool): string {
    if IsAlpha(c) then [ToUpper(c)] else if keepSpaces && IsSpace(c) then " " else ""
  }

  /** `clean_text` works character by character: it distributes over
      concatenation, and one character becomes `CleanChar` of it, so the
      result is the letters of the text, upper-cased, in their order. */
  lemma {:induction false} CleanTextAppend(a: string, b: string, keepSpaces: bool)
    ensures CleanText(a + b, keepSpaces) == CleanText(a, keepSpaces) + CleanText(b, keepSpaces)
    decreases |b|
  {
    if |b| > 0 {
      var b' := b[..|b| - 1];
      assert (a + b)[..|a + b| - 1] == a + b';
      CleanTextAppend(a, b', keepSpaces);
    } else {
      assert a + b == a;
    }
  }

  lemma CleanTextOneChar(c: char, keepSpaces: bool)
    ensures CleanText([c], keepSpaces) == CleanChar(c, keepSpaces)
  {
    assert [c][..0] == "";
  }

  /** Text that is already upper-case letters is left unchanged. */
  lemma {:induction false} CleanTextOfUpper(t: string)
    requires IsUpperText(t)
    ensures CleanText(t, false) == t
  {
    if |t| > 0 {
      CleanTextOfUpper(t[..|t| - 1]);
      assert t == t[..|t| - 1] + [t[|t| - 1]];
    }
  }

  /** `clean_text(clean_text(t)) == clean_text(t)` */
  lemma CleanTextIdempotent(t: string)
    ensures CleanText(CleanText(t, false), false) == CleanText(t, false)
  {
    CleanTextOfUpper(CleanText(t, false));
  }

  /** Removing the spaces from the space-keeping result gives the default result. */
  lemma {:induction false} CleanTextWithoutSpaces(t: string)
    ensures RemoveChar(CleanText(t, true), ' ') == CleanText(t, false)
  {
    if |t| > 0 {
      var p, c := t[..|t| - 1], t[|t| - 1];
      CleanTextWithoutSpaces(p);
      var rest := CleanText(p, true);
      if IsAlpha(c) {
        assert (rest + [ToUpper(c)])[..|rest|] == rest;
      } else if IsSpace(c) {
        assert (rest + [' '])[..|rest|] == rest;
      }
    }
  }

  // ---------------------------------------------------------------------------
  // format_output

  datatype FormattedOutput = FormattedOutput(noSpaces: string, grouped: string)

  /** `[text[i:i+size] for i in range(0, len(text), size)]` */
  function Chunks(text: string, size: nat): (r: seq<string>)
    requires size > 0
    ensures forall k :: 0 <= k < |r| ==> 0 < |r[k]| <= size
    ensures forall k :: 0 <= k < |r| - 1 ==> |r[k]| == size
    decreases |text|
  {
    if |text| == 0 then []
    else if |text| <= size then [text]
    else [text[..size]] + Chunks(text[size..], size)
  }

  function Concat(parts: seq<string>): string {
    if |parts| == 0 then "" else parts[0] + Concat(parts[1..])
  }

  /** The chunks put back together are the text. */
  lemma {:induction false} ChunksConcat(text: string, size: nat)
    requires size > 0
    ensures Concat(Chunks(text, size)) == text
    decreases |text|
  {
    if |text| > size {
      ChunksConcat(text[size..], size);
      assert text == text[..size] + text[size..];
    }
  }

  /** `format_output(text, group_size)`: `range` with a zero step raises;
      a negative step gives an empty range. */
  function FormatOutput(text: string, groupSize: int): (r: Result<FormattedOutput>)
    ensures r.Err? <==> groupSize == 0
    ensures r.Ok? ==> r.value.noSpaces == RemoveChar(text, ' ')
    ensures r.Ok? && groupSize < 0 ==> r.value.grouped == ""
  {
    if groupSize == 0 then Err("range() arg 3 must not be zero")
    else if groupSize < 0 then Ok(FormattedOutput(RemoveChar(text, ' '), ""))
    else Ok(FormattedOutput(RemoveChar(text, ' '), Join(Chunks(text, groupSize), " ")))
  }

  /** The grouped text of a text without spaces splits back into its groups of
      `group_size` characters, which concatenate to the text. */
  lemma FormatOutputGroups(text: string, groupSize: int)
    requires groupSize > 0 && ' ' !in text && |text| > 0
    ensures Split(FormatOutput(text, groupSize).value.grouped, ' ') == Chunks(text, groupSize)
    ensures Concat(Chunks(text, groupSize)) == text
  {
    var parts := Chunks(text, groupSize);
    ChunksConcat(text, groupSize);
    ChunksNoSep(text, groupSize, ' ');
    SplitJoin(parts, ' ');
  }

  lemma {:induction false} ChunksNoSep(text: string, size: nat, sep: char)
    requires size > 0 && sep !in text
    ensures forall k :: 0 <= k < |Chunks(text, size)| ==> sep !in Chunks(text, size)[k]
    ensures |text| > 0 ==> |Chunks(text, size)| >= 1
    decreases |text|
  {
    if |text| > size {
      assert forall c :: c in text[size..] ==> c in text;
      assert forall c :: c in text[..size] ==> c in text;
      ChunksNoSep(text[size..], size, sep);
    }
  }

  /** Removing the spaces of the grouped text gives `no_spaces`. */
  lemma {:induction false} GroupedWithoutSpaces(text: string, groupSize: int)
    requires groupSize > 0
    ensures RemoveChar(FormatOutput(text, groupSize).value.grouped, ' ') == RemoveChar(text, ' ')
  {
    JoinWithoutSeparator(Chunks(text, groupSize));
    ChunksConcat(text, groupSize);
  }

  lemma {:induction false} JoinWithoutSeparator(parts: seq<string>)
    ensures RemoveChar(Join(parts, " "), ' ') == RemoveChar(Concat(parts), ' ')
  {
    if |parts| == 1 {
      assert parts[1..] == [];
      assert Concat(parts[1..]) == "";
      assert parts[0] + "" == parts[0];
      assert Concat(parts) == parts[0];
    } else if |parts| > 1 {
      JoinWithoutSeparator(parts[1..]);
      var tail := Join(parts[1..], " ");
      RemoveCharAppend(parts[0] + " ", tail, ' ');
      RemoveCharAppend(parts[0], " ", ' ');
      RemoveCharAppend(parts[0], Concat(parts[1..]), ' ');
      assert RemoveChar(" ", ' ') == "" by { assert " "[..0] == ""; }
    }
  }

  // ---------------------------------------------------------------------------
  // mod_inverse

  /** The inner `extended_gcd(a, b)`: the gcd with Bezout coefficients. */
  function ExtendedGcd(a: nat, b: nat): (r: (nat, int, int))
    ensures r.0 == Gcd(a, b)
    ensures a * r.1 + b * r.2 == r.0
    decreases a
  {
    if a == 0 then (b, 0, 1)
    else
      var r1 := ExtendedGcd(b % a, a);
      var g, x1, y1 := r1.0, r1.1, r1.2;
      GcdStep(a, b);
      BezoutStep(a, b, x1, y1);
      (g, y1 - (b / a) * x1, x1)
  }

  lemma BezoutStep(a: nat, b: nat, x1: int, y1: int)
    requires a > 0
    ensures a * (y1 - (b / a) * x1) + b * x1 == (b % a) * x1 + a * y1
  {
    var q, r := b / a, b % a;
    assert b == a * q + r;
    calc {
      a * (y1 - q * x1) + b * x1;
      a * y1 - a * q * x1 + (a * q + r) * x1;
      a * y1 + r * x1;
    }
  }

  /** `mod_inverse(a, m)`: the inverse of `a` modulo `m`, or the error raised
      when `a % m` and `m` are not coprime. */
  function ModInverse(a: int, m: int): (r: Result<int>)
    requires m > 0
    ensures r.Ok? <==> Gcd(a % m, m) == 1
    ensures r.Ok? ==> 0 <= r.value < m && (a * r.value) % m == 1 % m
  {
    var e := ExtendedGcd(a % m, m);
    if e.0 != 1 then Err("Modular inverse does not exist for " + IntToString(a) + " mod " + IntToString(m))
    else
      InverseFromBezout(a, m, e.1, e.2);
      Ok((e.1 % m + m) % m)
  }

  lemma InverseFromBezout(a: int, m: int, x: int, y: int)
    requires m > 0 && (a % m) * x + m * y == 1
    ensures (a * ((x % m + m) % m)) % m == 1 % m
  {
    var inv := (x % m + m) % m;
    assert inv == x % m by {
      DivModUnique(x % m + m, m, 1, x % m);
    }
    CongruentMod(a, m);
    CongruentMod(x, m);
    CongruentMul(a, a % m, inv, x, m);
    assert (a % m) * x == 1 + m * -y;
    CongruentByMultiple((a % m) * x, 1, m, -y);
  }

  /** The inverse is unique: any `y` in `[0, m)` with `a*y == 1 (mod m)` is it. */
  lemma ModInverseUnique(a: int, m: int, y: int)
    requires m > 0 && 0 <= y < m && (a * y) % m == 1 % m
    ensures ModInverse(a, m) == Ok(y)
  {
    CoprimeFromInverse(a, m, y);
    var x := ModInverse(a, m).value;
    CongruentMul(x, x, a * y, 1, m);
    CongruentMul(y, y, a * x, 1, m);
    assert x * (a * y) == y * (a * x);
    ModSmall(x, m);
    ModSmall(y, m);
  }

  /** Only a number coprime with `m` has an inverse modulo `m`. */
  lemma CoprimeFromInverse(a: int, m: int, y: int)
    requires m > 0 && (a * y) % m == 1 % m
    ensures Gcd(a % m, m) == 1
  {
    var g := Gcd(a % m, m);
    GcdDivides(a % m, m);
    DividesMod(g, a, m);
    DividesLinear(g, a, m, y, -((a * y) / m));
    assert a * y + m * -((a * y) / m) == (a * y) % m;
    DividesMod(g, 1, m);
    DividesLe(g, 1);
  }


  // ---------------------------------------------------------------------------
  // Padding with X (the `while len(text) % size != 0: text += 'X'` loop of the
  // Hill and permutation ciphers)

  function PadCount(n: nat, size: nat): (k: nat)
    requires size > 0
    ensures k < size
  {
    (size - n % size) % size
  }

  function Xs(k: nat): (s: string)
    ensures |s| == k && forall i :: 0 <= i < k ==> s[i] == 'X'
  {
    seq(k, _ => 'X')
  }

  function PadX(text: string, size: nat): string
    requires size > 0
  {
    text + Xs(PadCount(|text|, size))
  }

  /** The padding count is the least number of `X` that makes the length a
      multiple of `size`. */
  lemma PadCountLeast(n: nat, size: nat, j: nat)
    requires size > 0
    ensures (n + PadCount(n, size)) % size == 0
    ensures j < PadCount(n, size) ==> (n + j) % size != 0
  {
    var r := n % size;
    var q := n / size;
    assert n == q * size + r;
    if r == 0 {
      DivModUnique(size, size, 1, 0);
      assert PadCount(n, size) == 0;
    } else {
      ModSmall(size - r, size);
      DivModUnique(n + (size - r), size, q + 1, 0);
      if j < size - r {
        DivModUnique(n + j, size, q, r + j);
      }
    }
  }

  /** The padded text starts with the text, ends with fewer than `size` `X`
      characters and has a length that is a multiple of `size`. */
  lemma PadXProperties(text: string, size: nat)
    requires size > 0
    ensures |PadX(text, size)| % size == 0
    ensures |text| <= |PadX(text, size)| < |text| + size
    ensures PadX(text, size)[..|text|] == text
    ensures forall i :: |text| <= i < |PadX(text, size)| ==> PadX(text, size)[i] == 'X'
    ensures |text| % size == 0 ==> PadX(text, size) == text
  {
    PadCountLeast(|text|, size, 0);
    if |text| % size == 0 {
      ModSmall(0, size);
      assert PadCount(|text|, size) == size % size;
      DivModUnique(size, size, 1, 0);
    }
  }

  /** The loop `while len(text) % size != 0: text += 'X'`. */
  method PadWithX(text: string, size: nat) returns (padded: string)
    requires size > 0
    ensures padded == PadX(text, size)
  {
    padded := text;
    while |padded| % size != 0
      invariant |text| <= |padded| <= |text| + PadCount(|text|, size)
      invariant padded == text + Xs(|padded| - |text|)
      decreases |text| + PadCount(|text|, size) - |padded|
    {
      PadCountLeast(|text|, size, |padded| - |text|);
      padded := padded + "X";
    }
    PadCountLeast(|text|, size, |padded| - |text|);
  }

  lemma PadXUpper(text: string, size: nat)
    requires size > 0 && IsUpperText(text)
    ensures IsUpperText(PadX(text, size))
  {
  }

  // ---------------------------------------------------------------------------
  // Key-stream arithmetic shared by Vigenère and the one-time pad

  /** `out[i] = (text[i] + key[i]) mod 26` */
  function AddStream(text: string, key: string): (r: string)
    requires IsUpperText(text) && IsUpperText(key) && |key| >= |text|
    ensures |r| == |text| && IsUpperText(r)
  {
    seq(|text|, i requires 0 <= i < |text| => Letter((Index(text[i]) + Index(key[i])) % SIZE))
  }

  /** `out[i] = (text[i] - key[i]) mod 26` */
  function SubStream(text: string, key: string): (r: string)
    requires IsUpperText(text) && IsUpperText(key) && |key| >= |text|
    ensures |r| == |text| && IsUpperText(r)
  {
    seq(|text|, i requires 0 <= i < |text| => Letter((Index(text[i]) - Index(key[i])) % SIZE))
  }

  /** Subtracting the key stream undoes adding it, and the other way round. */
  lemma StreamRoundTrip(text: string, key: string)
    requires IsUpperText(text) && IsUpperText(key) && |key| >= |text|
    ensures SubStream(AddStream(text, key), key) == text
    ensures AddStream(SubStream(text, key), key) == text
  {
    forall i | 0 <= i < |text|
      ensures SubStream(AddStream(text, key), key)[i] == text[i]
      ensures AddStream(SubStream(text, key), key)[i] == text[i]
    {
      var x: int, k: int := Index(text[i]), Index(key[i]);
      ShiftBack(x, k);
      ShiftBack(x, -k);
    }
  }

  /** `((x + k) mod 26 - k) mod 26 == x` for a letter index `x`. */
  lemma ShiftBack(x: int, k: int)
    requires 0 <= x < SIZE
    ensures ((x + k) % SIZE - k) % SIZE == x
  {
    CongruentMod(x + k, SIZE);
    CongruentAdd((x + k) % SIZE, x + k, -k, -k, SIZE);
    assert (x + k) % SIZE - k == ((x + k) % SIZE) + -k;
    ModSmall(x, SIZE);
  }
}
