/** The Hill cipher with a 2x2 key matrix: the cleaned text, padded with `X`
    to an even length, is cut into pairs of letter indices, and every pair is
    multiplied by the key matrix modulo 26. */
module HillCipher {
  import opened Builtins
  import opened NumberTheory
  import opened BaseCipher

  const NUMBER_ERROR: string := "Hill cipher key must contain only numbers separated by commas"
  const COUNT_ERROR: string := "Hill cipher key must contain 4 numbers for 2x2 matrix"
  const SINGULAR_ERROR: string := "Key matrix is not invertible modulo 26"

  /** `matrix_size` in `encrypt` and `decrypt`. */
  const N: nat := 2

  /** The matrix `[[a, b], [c, d]]`. */
  datatype Matrix = Matrix(a: int, b: int, c: int, d: int)

  const IDENTITY: Matrix := Matrix(1, 0, 0, 1)

  /** The determinant, computed exactly. */
  function Det(m: Matrix): int {
    m.a * m.d - m.b * m.c
  }

  /** `gcd(det % 26, 26) == 1` */
  predicate Invertible(m: Matrix) {
    Gcd(Det(m) % SIZE, SIZE) == 1
  }

  /** The matrix product `m n`. */
  function Mul(m: Matrix, n: Matrix): Matrix {
    Matrix(m.a * n.a + m.b * n.c, m.a * n.b + m.b * n.d,
           m.c * n.a + m.d * n.c, m.c * n.b + m.d * n.d)
  }

  /** Every entry reduced modulo 26. */
  function Reduced(m: Matrix): Matrix {
    Matrix(m.a % SIZE, m.b % SIZE, m.c % SIZE, m.d % SIZE)
  }

  // ---------------------------------------------------------------------------
  // _parse_key_matrix

  /** `[int(x.strip()) for x in parts]`, or `None` when one conversion fails. */
  function ParseAll(parts: seq<string>): (r: Option<seq<int>>)
    ensures r.Some? <==> forall i :: 0 <= i < |parts| ==> ParseInt(parts[i]).Some?
    ensures r.Some? ==> |r.value| == |parts|
    ensures r.Some? ==> forall i :: 0 <= i < |parts| ==> r.value[i] == ParseInt(parts[i]).value
  {
    if |parts| == 0 then Some([])
    else
      match (ParseAll(parts[..|parts| - 1]), ParseInt(parts[|parts| - 1]))
      case (Some(xs), Some(x)) => Some(xs + [x])
      case _ => None
  }

  /** `_parse_key_matrix(key, 2)`: every comma-separated piece must be an
      integer, there must be four of them, and the determinant must be
      coprime with 26. */
  function ParseKeyMatrix(key: string): (r: Result<Matrix>)
    ensures r.Ok? ==> Invertible(r.value)
  {
    match ParseAll(Split(key, ','))
    case None => Err(NUMBER_ERROR)
    case Some(e) =>
      if |e| != N * N then Err(COUNT_ERROR)
      else
        var m := Matrix(e[0], e[1], e[2], e[3]);
        if !Invertible(m) then Err(SINGULAR_ERROR) else Ok(m)
  }

  // ---------------------------------------------------------------------------
  // _matrix_mod_inverse

  /** The inverse of the determinant times the adjugate `[[d, -b], [-c, a]]`,
      entry by entry modulo 26. */
  function MatrixModInverse(m: Matrix): (inv: Matrix)
    requires Invertible(m)
  {
    ScaledAdjugate(m, DetInverse(m))
  }

  /** `(e * adj) % 26` for the adjugate `[[d, -b], [-c, a]]`. */
  function ScaledAdjugate(m: Matrix, e: int): Matrix {
    Matrix((e * m.d) % SIZE, (e * -m.b) % SIZE, (e * -m.c) % SIZE, (e * m.a) % SIZE)
  }

  /** `mod_inverse(det % 26, 26)` */
  function DetInverse(m: Matrix): (detInv: int)
    requires Invertible(m)
    ensures 0 <= detInv < SIZE && Congruent(detInv * Det(m), 1, SIZE)
  {
    var det := Det(m) % SIZE;
    ModSmall(det, SIZE);
    var detInv := ModInverse(det, SIZE).value;
    CongruentMod(Det(m), SIZE);
    CongruentMul(detInv, detInv, Det(m), det, SIZE);
    assert detInv * det == det * detInv;
    detInv
  }

  // ---------------------------------------------------------------------------
  // Vectors

  /** The letter indices of an upper-case text. */
  function Indices(s: string): (v: seq<int>)
    requires IsUpperText(s)
    ensures |v| == |s|
  {
    seq(|s|, j requires 0 <= j < |s| => Index(s[j]) as int)
  }

  /** `size`-long vectors of letter indices. */
  predicate IsVectors(vs: seq<seq<int>>, size: nat) {
    forall i :: 0 <= i < |vs| ==> |vs[i]| == size && forall j :: 0 <= j < size ==> 0 <= vs[i][j] < SIZE
  }

  /** The text cut into consecutive vectors of `size` letter indices. */
  function Vectors(text: string, size: nat): (vs: seq<seq<int>>)
    requires size > 0 && IsUpperText(text) && |text| % size == 0
    ensures IsVectors(vs, size)
    decreases |text|
  {
    if |text| == 0 then []
    else
      MultipleStep(|text|, size);
      Vectors(text[..|text| - size], size) + [Indices(text[|text| - size..])]
  }

  /** `alphabet[num % 26]` for each number of a vector. */
  function LettersOf(v: seq<int>): (s: string)
    ensures |s| == |v|
  {
    seq(|v|, j requires 0 <= j < |v| => Letter(v[j] % SIZE))
  }

  /** `_vectors_to_text`: the letters of the vectors, one after the other. */
  function VectorsText(vs: seq<seq<int>>): (s: string)
    ensures IsUpperText(s)
  {
    if |vs| == 0 then "" else VectorsText(vs[..|vs| - 1]) + LettersOf(vs[|vs| - 1])
  }

  /** `np.dot(m, v) % 26` */
  function Apply(m: Matrix, v: seq<int>): (w: seq<int>)
    requires |v| == N
    ensures |w| == N && 0 <= w[0] < SIZE && 0 <= w[1] < SIZE
  {
    [(m.a * v[0] + m.b * v[1]) % SIZE, (m.c * v[0] + m.d * v[1]) % SIZE]
  }

  function ApplyAll(m: Matrix, vs: seq<seq<int>>): (ws: seq<seq<int>>)
    requires forall i :: 0 <= i < |vs| ==> |vs[i]| == N
    ensures |ws| == |vs| && IsVectors(ws, N)
  {
    seq(|vs|, i requires 0 <= i < |vs| => Apply(m, vs[i]))
  }

  /** The Hill transformation of an upper-case text under matrix `m`. */
  function Hill(m: Matrix, text: string): string
    requires IsUpperText(text)
  {
    PadXProperties(text, N);
    PadXUpper(text, N);
    VectorsText(ApplyAll(m, Vectors(PadX(text, N), N)))
  }

  // ---------------------------------------------------------------------------
  // encrypt and decrypt

  /** `HillCipher.encrypt`: the key is parsed before the text is looked at. */
  function Encryption(plaintext: string, key: string): Result<string> {
    match ParseKeyMatrix(key)
    case Err(e) => Err(e)
    case Ok(m) =>
      var t := CleanText(plaintext, false);
      if |t| == 0 then Ok("") else Ok(Hill(m, t))
  }

  /** `HillCipher.decrypt`: the same with the inverse matrix. */
  function Decryption(ciphertext: string, key: string): Result<string> {
    match ParseKeyMatrix(key)
    case Err(e) => Err(e)
    case Ok(m) =>
      var t := CleanText(ciphertext, false);
      if |t| == 0 then Ok("") else Ok(Hill(MatrixModInverse(m), t))
  }

  method Encrypt(plaintext: string, key: string) returns (r: Result<string>)
    ensures r == Encryption(plaintext, key)
  {
    var parsed := ParseKeyMatrix(key);
    if parsed.Err? {
      return Err(parsed.message);
    }
    var keyMatrix := parsed.value;
    var cleaned := CleanText(plaintext, false);
    if |cleaned| == 0 {
      return Ok("");
    }
    var vectors := TextToVectors(cleaned, N);
    var encryptedVectors := MultiplyAll(keyMatrix, vectors);
    var encrypted := VectorsToText(encryptedVectors);
    return Ok(encrypted);
  }

  method Decrypt(ciphertext: string, key: string) returns (r: Result<string>)
    ensures r == Decryption(ciphertext, key)
  {
    var parsed := ParseKeyMatrix(key);
    if parsed.Err? {
      return Err(parsed.message);
    }
    var keyMatrix := parsed.value;
    var invMatrix := MatrixModInverse(keyMatrix);
    var cleaned := CleanText(ciphertext, false);
    if |cleaned| == 0 {
      return Ok("");
    }
    var vectors := TextToVectors(cleaned, N);
    var decryptedVectors := MultiplyAll(invMatrix, vectors);
    var decrypted := VectorsToText(decryptedVectors);
    return Ok(decrypted);
  }

  /** `_text_to_vectors(text, size)`: pad with `X`, then cut. */
  method TextToVectors(text: string, size: nat) returns (vectors: seq<seq<int>>)
    requires size > 0 && IsUpperText(text)
    ensures IsUpperText(PadX(text, size)) && |PadX(text, size)| % size == 0
    ensures vectors == Vectors(PadX(text, size), size)
  {
    PadXProperties(text, size);
    PadXUpper(text, size);
    var padded := PadWithX(text, size);
    vectors := Cut(padded, size);
  }

  /** The vector loop of `_text_to_vectors`. */
  method Cut(padded: string, size: nat) returns (vectors: seq<seq<int>>)
    requires size > 0 && IsUpperText(padded) && |padded| % size == 0
    ensures vectors == Vectors(padded, size)
  {
    vectors := [];
    var i := 0;
    while i < |padded|
      invariant 0 <= i <= |padded| && i % size == 0
      invariant vectors == Vectors(padded[..i], size)
      decreases |padded| - i
    {
      NextMultiple(i, |padded|, size);
      var vector := [];
      for j := 0 to size
        invariant vector == Indices(padded[i..i + j])
      {
        assert padded[i..i + j + 1] == padded[i..i + j] + [padded[i + j]];
        vector := vector + [Index(padded[i + j]) as int];
      }
      assert padded[..i + size][..i] == padded[..i];
      assert padded[..i + size][i..] == padded[i..i + size];
      vectors := vectors + [vector];
      ModAddMultiple(1, i, size);
      i := i + size;
    }
    assert padded[..|padded|] == padded;
  }

  /** `_vectors_to_text(vectors)` */
  method VectorsToText(vectors: seq<seq<int>>) returns (text: string)
    ensures text == VectorsText(vectors)
  {
    text := "";
    for i := 0 to |vectors|
      invariant text == VectorsText(vectors[..i])
    {
      var vector := vectors[i];
      var before := text;
      for j := 0 to |vector|
        invariant text == before + LettersOf(vector[..j])
      {
        assert LettersOf(vector[..j + 1]) == LettersOf(vector[..j]) + [Letter(vector[j] % SIZE)];
        text := text + [Letter(vector[j] % SIZE)];
      }
      assert vector[..|vector|] == vector;
      assert vectors[..i + 1][..i] == vectors[..i];
    }
    assert vectors[..|vectors|] == vectors;
  }

  /** The vector loop of `encrypt` and `decrypt`. */
  method MultiplyAll(m: Matrix, vectors: seq<seq<int>>) returns (result: seq<seq<int>>)
    requires forall i :: 0 <= i < |vectors| ==> |vectors[i]| == N
    ensures result == ApplyAll(m, vectors)
  {
    result := [];
    for i := 0 to |vectors|
      invariant result == ApplyAll(m, vectors[..i])
    {
      var v := vectors[i];
      var product := [(m.a * v[0] + m.b * v[1]) % SIZE, (m.c * v[0] + m.d * v[1]) % SIZE];
      result := result + [product];
    }
    assert vectors[..|vectors|] == vectors;
  }

  // ---------------------------------------------------------------------------
  // Arithmetic helpers

  /** `p x + q y == p' x' + q' y'` modulo 26 when the factors agree modulo 26. */
  lemma CombineCongruent(p: int, q: int, x: int, y: int, p': int, q': int, x': int, y': int)
    requires Congruent(p, p', SIZE) && Congruent(q, q', SIZE)
    requires Congruent(x, x', SIZE) && Congruent(y, y', SIZE)
    ensures Congruent(p * x + q * y, p' * x' + q' * y', SIZE)
  {
    CongruentMul(p, p', x, x', SIZE);
    CongruentMul(q, q', y, y', SIZE);
    CongruentAdd(p * x, p' * x', q * y, q' * y', SIZE);
  }

  // ---------------------------------------------------------------------------
  // Properties

  /** The entries of the scaled adjugate agree modulo 26 with the products
      they reduce. */
  lemma {:induction false} ScaledEntries(m: Matrix, e: int)
    ensures var inv := ScaledAdjugate(m, e);
      Congruent(inv.a, e * m.d, SIZE) && Congruent(inv.b, e * -m.b, SIZE) &&
      Congruent(inv.c, e * -m.c, SIZE) && Congruent(inv.d, e * m.a, SIZE)
  {
    CongruentMod(e * m.d, SIZE);
    CongruentMod(e * -m.b, SIZE);
    CongruentMod(e * -m.c, SIZE);
    CongruentMod(e * m.a, SIZE);
  }

  /** The adjugate times the matrix, either way round, is the determinant
      times the identity. */
  lemma AdjugateProducts(e: int, a: int, b: int, c: int, d: int)
    ensures (e * d) * a + (e * -b) * c == e * (a * d - b * c)
    ensures (e * d) * b + (e * -b) * d == 0
    ensures (e * -c) * a + (e * a) * c == 0
    ensures (e * -c) * b + (e * a) * d == e * (a * d - b * c)
    ensures a * (e * d) + b * (e * -c) == e * (a * d - b * c)
    ensures a * (e * -b) + b * (e * a) == 0
    ensures c * (e * d) + d * (e * -c) == 0
    ensures c * (e * -b) + d * (e * a) == e * (a * d - b * c)
  {
  }

  /** `p x + q y` reduces like `target` when `p`, `q` agree modulo 26 with
      `p'`, `q'` and `p' x + q' y == target`. */
  lemma EntryCongruent(p: int, q: int, x: int, y: int, p': int, q': int, target: int)
    requires Congruent(p, p', SIZE) && Congruent(q, q', SIZE) && p' * x + q' * y == target
    ensures (p * x + q * y) % SIZE == target % SIZE
  {
    CombineCongruent(p, q, x, y, p', q', x, y);
  }

  /** `_matrix_mod_inverse` is a left inverse of the key matrix modulo 26. */
  lemma {:induction false} InverseIsLeftInverse(m: Matrix)
    requires Invertible(m)
    ensures Reduced(Mul(MatrixModInverse(m), m)) == IDENTITY
  {
    ScaledLeftInverse(m, DetInverse(m));
  }

  /** `_matrix_mod_inverse` is a right inverse of the key matrix modulo 26. */
  lemma {:induction false} InverseIsRightInverse(m: Matrix)
    requires Invertible(m)
    ensures Reduced(Mul(m, MatrixModInverse(m))) == IDENTITY
  {
    ScaledRightInverse(m, DetInverse(m));
  }

  /** With `e det == 1 (mod 26)`, the adjugate scaled by `e` is a left inverse. */
  lemma {:induction false} ScaledLeftInverse(m: Matrix, e: int)
    requires Congruent(e * Det(m), 1, SIZE)
    ensures Reduced(Mul(ScaledAdjugate(m, e), m)) == IDENTITY
  {
    var inv := ScaledAdjugate(m, e);
    var p := Mul(inv, m);
    assert p.a % SIZE == 1 by {
      ScaledEntries(m, e);
      AdjugateProducts(e, m.a, m.b, m.c, m.d);
      EntryCongruent(inv.a, inv.b, m.a, m.c, e * m.d, e * -m.b, e * Det(m));
    }
    assert p.b % SIZE == 0 by {
      ScaledEntries(m, e);
      AdjugateProducts(e, m.a, m.b, m.c, m.d);
      EntryCongruent(inv.a, inv.b, m.b, m.d, e * m.d, e * -m.b, 0);
    }
    assert p.c % SIZE == 0 by {
      ScaledEntries(m, e);
      AdjugateProducts(e, m.a, m.b, m.c, m.d);
      EntryCongruent(inv.c, inv.d, m.a, m.c, e * -m.c, e * m.a, 0);
    }
    assert p.d % SIZE == 1 by {
      ScaledEntries(m, e);
      AdjugateProducts(e, m.a, m.b, m.c, m.d);
      EntryCongruent(inv.c, inv.d, m.b, m.d, e * -m.c, e * m.a, e * Det(m));
    }
  }

  /** With `e det == 1 (mod 26)`, the adjugate scaled by `e` is a right inverse. */
  lemma {:induction false} ScaledRightInverse(m: Matrix, e: int)
    requires Congruent(e * Det(m), 1, SIZE)
    ensures Reduced(Mul(m, ScaledAdjugate(m, e))) == IDENTITY
  {
    var inv := ScaledAdjugate(m, e);
    var p := Mul(m, inv);
    assert p.a % SIZE == 1 by {
      ScaledEntries(m, e);
      AdjugateProducts(e, m.a, m.b, m.c, m.d);
      RightEntry(m.a, m.b, inv.a, inv.c, e * m.d, e * -m.c, e * Det(m));
    }
    assert p.b % SIZE == 0 by {
      ScaledEntries(m, e);
      AdjugateProducts(e, m.a, m.b, m.c, m.d);
      RightEntry(m.a, m.b, inv.b, inv.d, e * -m.b, e * m.a, 0);
    }
    assert p.c % SIZE == 0 by {
      ScaledEntries(m, e);
      AdjugateProducts(e, m.a, m.b, m.c, m.d);
      RightEntry(m.c, m.d, inv.a, inv.c, e * m.d, e * -m.c, 0);
    }
    assert p.d % SIZE == 1 by {
      ScaledEntries(m, e);
      AdjugateProducts(e, m.a, m.b, m.c, m.d);
      RightEntry(m.c, m.d, inv.b, inv.d, e * -m.b, e * m.a, e * Det(m));
    }
  }

  /** `p x + q y` reduces like `target` when `x`, `y` agree modulo 26 with
      `x'`, `y'` and `p x' + q y' == target`. */
  lemma RightEntry(p: int, q: int, x: int, y: int, x': int, y': int, target: int)
    requires Congruent(x, x', SIZE) && Congruent(y, y', SIZE) && p * x' + q * y' == target
    ensures (p * x + q * y) % SIZE == target % SIZE
  {
    CombineCongruent(p, q, x, y, p, q, x', y');
  }

  /** Multiplying a vector of letter indices by a matrix and then by its
      inverse (or the other way round) gives the vector back. */
  lemma {:induction false} ApplyInverse(m: Matrix, v: seq<int>)
    requires Invertible(m) && |v| == N && 0 <= v[0] < SIZE && 0 <= v[1] < SIZE
    ensures Apply(MatrixModInverse(m), Apply(m, v)) == v
    ensures Apply(m, Apply(MatrixModInverse(m), v)) == v
  {
    var inv := MatrixModInverse(m);
    InverseIsLeftInverse(m);
    InverseIsRightInverse(m);
    UndoProduct(inv, m, v);
    UndoProduct(m, inv, v);
  }

  /** When `p q` reduces to the identity, applying `q` and then `p` is the identity. */
  lemma {:induction false} UndoProduct(p: Matrix, q: Matrix, v: seq<int>)
    requires Reduced(Mul(p, q)) == IDENTITY && |v| == N && 0 <= v[0] < SIZE && 0 <= v[1] < SIZE
    ensures Apply(p, Apply(q, v)) == v
  {
    var x, y := v[0], v[1];
    var w := Apply(q, v);
    var u := Apply(p, w);
    assert u[0] == (p.a * w[0] + p.b * w[1]) % SIZE;
    assert u[1] == (p.c * w[0] + p.d * w[1]) % SIZE;
    UndoEntry(p.a, p.b, q, x, y, w[0], w[1], 1, 0);
    UndoEntry(p.c, p.d, q, x, y, w[0], w[1], 0, 1);
    assert 1 * x + 0 * y == x && 0 * x + 1 * y == y;
    ModSmall(x, SIZE);
    ModSmall(y, SIZE);
  }

  /** One entry of `p (q v mod 26) mod 26`, for the row `[r, s]` of `p`
      whose products with the columns of `q` reduce to `t` and `u`. */
  lemma {:induction false} UndoEntry(r: int, s: int, q: Matrix, x: int, y: int, w0: int, w1: int, t: int, u: int)
    requires w0 == (q.a * x + q.b * y) % SIZE && w1 == (q.c * x + q.d * y) % SIZE
    requires Congruent(r * q.a + s * q.c, t, SIZE) && Congruent(r * q.b + s * q.d, u, SIZE)
    ensures (r * w0 + s * w1) % SIZE == (t * x + u * y) % SIZE
  {
    CongruentMod(q.a * x + q.b * y, SIZE);
    CongruentMod(q.c * x + q.d * y, SIZE);
    CombineCongruent(r, s, w0, w1, r, s, q.a * x + q.b * y, q.c * x + q.d * y);
    assert r * (q.a * x + q.b * y) + s * (q.c * x + q.d * y) == (r * q.a + s * q.c) * x + (r * q.b + s * q.d) * y;
    CombineCongruent(r * q.a + s * q.c, r * q.b + s * q.d, x, y, t, u, x, y);
  }

  lemma {:induction false} ApplyAllInverse(m: Matrix, vs: seq<seq<int>>)
    requires Invertible(m) && IsVectors(vs, N)
    ensures ApplyAll(MatrixModInverse(m), ApplyAll(m, vs)) == vs
    ensures ApplyAll(m, ApplyAll(MatrixModInverse(m), vs)) == vs
  {
    forall i | 0 <= i < |vs|
      ensures ApplyAll(MatrixModInverse(m), ApplyAll(m, vs))[i] == vs[i]
      ensures ApplyAll(m, ApplyAll(MatrixModInverse(m), vs))[i] == vs[i]
    {
      ApplyInverse(m, vs[i]);
    }
  }

  /** Reading letter indices back as letters gives the text. */
  lemma {:induction false} LettersOfIndices(s: string)
    requires IsUpperText(s)
    ensures LettersOf(Indices(s)) == s
  {
    forall j | 0 <= j < |s| ensures LettersOf(Indices(s))[j] == s[j] {
      ModSmall(Index(s[j]), SIZE);
    }
  }

  /** `_vectors_to_text` undoes the cutting of `_text_to_vectors`. */
  lemma {:induction false} TextOfVectors(text: string, size: nat)
    requires size > 0 && IsUpperText(text) && |text| % size == 0
    ensures VectorsText(Vectors(text, size)) == text
    decreases |text|
  {
    if |text| > 0 {
      MultipleStep(|text|, size);
      var front, back := text[..|text| - size], text[|text| - size..];
      var vs := Vectors(text, size);
      assert vs[..|vs| - 1] == Vectors(front, size);
      TextOfVectors(front, size);
      LettersOfIndices(back);
      assert front + back == text;
    }
  }

  /** The letters of `k` vectors of length `size` number `k * size`. */
  lemma {:induction false} VectorsTextLength(vs: seq<seq<int>>, size: nat)
    requires size > 0 && IsVectors(vs, size)
    ensures |VectorsText(vs)| % size == 0
    decreases |vs|
  {
    if |vs| > 0 {
      VectorsTextLength(vs[..|vs| - 1], size);
      var n := |VectorsText(vs[..|vs| - 1])|;
      var q := n / size;
      assert n == size * q;
      ModAddMultiple(q + 1, 0, size);
      assert size * (q + 1) == n + size;
    }
  }

  /** Cutting the text of vectors of letter indices gives the vectors back. */
  lemma {:induction false} VectorsOfText(vs: seq<seq<int>>, size: nat)
    requires size > 0 && IsVectors(vs, size)
    ensures |VectorsText(vs)| % size == 0
    ensures Vectors(VectorsText(vs), size) == vs
    decreases |vs|
  {
    VectorsTextLength(vs, size);
    if |vs| > 0 {
      var front, last := vs[..|vs| - 1], vs[|vs| - 1];
      VectorsOfText(front, size);
      var t := VectorsText(vs);
      var ft := VectorsText(front);
      assert t == ft + LettersOf(last);
      assert t[..|t| - size] == ft;
      assert t[|t| - size..] == LettersOf(last);
      assert Indices(LettersOf(last)) == last by {
        forall j | 0 <= j < size ensures Indices(LettersOf(last))[j] == last[j] {
          ModSmall(last[j], SIZE);
        }
      }
      assert front + [last] == vs;
    }
  }

  /** The Hill text of `t` is as long as `t` padded to an even length. */
  lemma {:induction false} HillLength(m: Matrix, t: string)
    requires IsUpperText(t)
    ensures |Hill(m, t)| == |PadX(t, N)|
  {
    PadXProperties(t, N);
    PadXUpper(t, N);
    var vs := Vectors(PadX(t, N), N);
    TextOfVectors(PadX(t, N), N);
    VectorsOfText(ApplyAll(m, vs), N);
    VectorsLengths(vs, ApplyAll(m, vs));
  }

  /** Texts of equally many vectors of equal lengths are equally long. */
  lemma {:induction false} VectorsLengths(vs: seq<seq<int>>, ws: seq<seq<int>>)
    requires |vs| == |ws| && forall i :: 0 <= i < |vs| ==> |vs[i]| == |ws[i]|
    ensures |VectorsText(vs)| == |VectorsText(ws)|
    decreases |vs|
  {
    if |vs| > 0 {
      VectorsLengths(vs[..|vs| - 1], ws[..|ws| - 1]);
    }
  }

  /** Decrypting the Hill text with the inverse matrix gives the padded text. */
  lemma {:induction false} HillRoundTrip(m: Matrix, t: string)
    requires Invertible(m) && IsUpperText(t)
    ensures Hill(MatrixModInverse(m), CleanText(Hill(m, t), false)) == PadX(t, N)
  {
    var padded := PadX(t, N);
    PadXProperties(t, N);
    PadXUpper(t, N);
    var vs := Vectors(padded, N);
    var c := Hill(m, t);
    CleanTextOfUpper(c);
    VectorsOfText(ApplyAll(m, vs), N);
    PadXProperties(c, N);
    ApplyAllInverse(m, vs);
    TextOfVectors(padded, N);
  }

  /** Encrypting the text decrypted with the inverse matrix gives the padded text. */
  lemma {:induction false} HillRoundTripBack(m: Matrix, t: string)
    requires Invertible(m) && IsUpperText(t)
    ensures Hill(m, CleanText(Hill(MatrixModInverse(m), t), false)) == PadX(t, N)
  {
    var padded := PadX(t, N);
    PadXProperties(t, N);
    PadXUpper(t, N);
    var vs := Vectors(padded, N);
    var inv := MatrixModInverse(m);
    var p := Hill(inv, t);
    CleanTextOfUpper(p);
    VectorsOfText(ApplyAll(inv, vs), N);
    PadXProperties(p, N);
    ApplyAllInverse(m, vs);
    TextOfVectors(padded, N);
  }

  /** `decrypt(encrypt(t, key), key)` is the cleaned text padded with `X` to
      an even length. */
  lemma {:induction false} DecryptEncrypt(plaintext: string, key: string)
    requires Encryption(plaintext, key).Ok?
    ensures Decryption(Encryption(plaintext, key).value, key) == Ok(PadX(CleanText(plaintext, false), N))
  {
    var m := ParseKeyMatrix(key).value;
    var t := CleanText(plaintext, false);
    PadXProperties(t, N);
    if |t| == 0 {
      assert Encryption(plaintext, key) == Ok("");
      assert CleanText("", false) == "";
    } else {
      HillLength(m, t);
      HillRoundTrip(m, t);
      CleanTextOfUpper(Hill(m, t));
    }
  }

  /** `encrypt(decrypt(c, key), key)` is the cleaned text padded with `X` to
      an even length. */
  lemma {:induction false} EncryptDecrypt(ciphertext: string, key: string)
    requires Decryption(ciphertext, key).Ok?
    ensures Encryption(Decryption(ciphertext, key).value, key) == Ok(PadX(CleanText(ciphertext, false), N))
  {
    var m := ParseKeyMatrix(key).value;
    var t := CleanText(ciphertext, false);
    PadXProperties(t, N);
    if |t| == 0 {
      assert Decryption(ciphertext, key) == Ok("");
      assert CleanText("", false) == "";
    } else {
      HillLength(MatrixModInverse(m), t);
      HillRoundTripBack(m, t);
      CleanTextOfUpper(Hill(MatrixModInverse(m), t));
    }
  }

  /** A key of four written integers is the matrix they make, refused only
      when its determinant is not coprime with 26. */
  lemma {:induction false} ParseKeyOfIntegers(m: Matrix)
    ensures ParseKeyMatrix(IntToString(m.a) + "," + IntToString(m.b) + "," + IntToString(m.c) + "," + IntToString(m.d)) ==
      if Invertible(m) then Ok(m) else Err(SINGULAR_ERROR)
  {
    var parts := [IntToString(m.a), IntToString(m.b), IntToString(m.c), IntToString(m.d)];
    SplitIntegers(parts, m);
    ParseIntToString(m.a);
    ParseIntToString(m.b);
    ParseIntToString(m.c);
    ParseIntToString(m.d);
    var r := ParseAll(parts);
    assert r.Some? && |r.value| == 4;
    assert r.value[0] == m.a && r.value[1] == m.b && r.value[2] == m.c && r.value[3] == m.d;
  }

  /** Four written integers joined with commas split back into themselves. */
  lemma {:induction false} SplitIntegers(parts: seq<string>, m: Matrix)
    requires parts == [IntToString(m.a), IntToString(m.b), IntToString(m.c), IntToString(m.d)]
    ensures Split(parts[0] + "," + parts[1] + "," + parts[2] + "," + parts[3], ',') == parts
  {
    forall i | 0 <= i < 4 ensures ',' !in parts[i] {
      assert forall k :: 0 <= k < |parts[i]| ==> IsDigit(parts[i][k]) || parts[i][k] == '-';
    }
    assert Join(parts, ",") == parts[0] + "," + parts[1] + "," + parts[2] + "," + parts[3] by {
      assert parts[1..][1..] == parts[2..] && parts[2..][1..] == [parts[3]];
      assert Join(parts[2..], ",") == parts[2] + "," + parts[3];
      assert Join(parts[1..], ",") == parts[1] + "," + Join(parts[2..], ",");
    }
    SplitJoin(parts, ',');
  }

  /** A key whose pieces are all integers but not four of them is refused
      with the count message. */
  lemma {:induction false} WrongCount(key: string)
    requires forall i :: 0 <= i < |Split(key, ',')| ==> ParseInt(Split(key, ',')[i]).Some?
    requires |Split(key, ',')| != 4
    ensures ParseKeyMatrix(key) == Err(COUNT_ERROR)
  {
  }

  /** A key with a piece that is not an integer is refused with the number
      message, whatever the number of pieces. */
  lemma {:induction false} NotANumber(key: string, i: nat)
    requires i < |Split(key, ',')| && ParseInt(Split(key, ',')[i]).None?
    ensures ParseKeyMatrix(key) == Err(NUMBER_ERROR)
  {
  }

  /** The identity matrix leaves the padded text as it is. */
  lemma {:induction false} IdentityKey(t: string)
    requires IsUpperText(t)
    ensures Hill(IDENTITY, t) == PadX(t, N)
  {
    PadXProperties(t, N);
    PadXUpper(t, N);
    var vs := Vectors(PadX(t, N), N);
    forall i | 0 <= i < |vs| ensures ApplyAll(IDENTITY, vs)[i] == vs[i] {
      ModSmall(vs[i][0], SIZE);
      ModSmall(vs[i][1], SIZE);
    }
    assert ApplyAll(IDENTITY, vs) == vs;
    TextOfVectors(PadX(t, N), N);
  }

  /** `[[3, 3], [2, 5]]` takes HELP to HIAT. */
  lemma {:induction false} HelpExample()
    ensures Hill(Matrix(3, 3, 2, 5), "HELP") == "HIAT"
  {
    PadXProperties("HELP", N);
    HelpVectors();
    var ws := ApplyAll(Matrix(3, 3, 2, 5), [[7, 4], [11, 15]]);
    assert ws == [[7, 8], [0, 19]];
    HiatText();
  }

  /** `encrypt("HELP", "3,3,2,5")` is HIAT. */
  lemma {:induction false} HelpEncryptionExample()
    ensures Encryption("HELP", "3,3,2,5") == Ok("HIAT")
  {
    var m := Matrix(3, 3, 2, 5);
    assert IntToString(3) == "3" && IntToString(2) == "2" && IntToString(5) == "5";
    assert IntToString(m.a) + "," + IntToString(m.b) + "," + IntToString(m.c) + "," + IntToString(m.d) == "3,3,2,5";
    CoprimeFromInverse(Det(m), SIZE, 3);
    ParseKeyOfIntegers(m);
    CleanTextOfUpper("HELP");
    HelpExample();
  }

  lemma {:induction false} HelpVectors()
    ensures Vectors("HELP", N) == [[7, 4], [11, 15]]
  {
    assert "HELP"[..2] == "HE" && "HELP"[2..] == "LP";
    assert "HE"[..0] == "" && "HE"[0..] == "HE";
    assert Indices("HE") == [7, 4];
    assert Indices("LP") == [11, 15];
    assert Vectors("HE", N) == [[7, 4]];
  }

  lemma {:induction false} HiatText()
    ensures VectorsText([[7, 8], [0, 19]]) == "HIAT"
  {
    var ws: seq<seq<int>> := [[7, 8], [0, 19]];
    assert ws[..1] == [[7, 8]] && ws[..1][..0] == [];
    assert LettersOf([7, 8]) == "HI";
    assert LettersOf([0, 19]) == "AT";
    assert VectorsText([[7, 8]]) == "HI";
  }
}
