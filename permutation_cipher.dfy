/** The permutation (columnar transposition) cipher: the cleaned text,
    padded with `X`, is written row by row into a grid as wide as the key,
    and read column by column in the stable alphabetical order of the key's
    characters. */
module PermutationCipher {
  import opened Builtins
  import opened NumberTheory
  import opened BaseCipher

  const EMPTY_KEY_ERROR: string := "Permutation cipher key cannot be empty"

  // ---------------------------------------------------------------------------
  // _get_key_order

  /** The code points of a string, the keys `sorted` compares. */
  function Codes(s: string): (r: seq<int>)
    ensures |r| == |s|
  {
    seq(|s|, i requires 0 <= i < |s| => s[i] as int)
  }

  /** `_get_key_order(key)`: the column positions in stable ascending order
      of the upper-cased key characters. */
  function KeyOrder(key: string): (order: seq<nat>)
    ensures |order| == |key|
  {
    ArgSort(Codes(Upper(key)))
  }

  /** A column order for a grid of width `k`: every column exactly once. */
  predicate IsOrder(order: seq<nat>, k: nat) {
    |order| == k && NoRepeats(order) && (forall j :: 0 <= j < k ==> order[j] < k) &&
    forall c :: 0 <= c < k ==> c in order
  }

  // ---------------------------------------------------------------------------
  // Rows and columns

  /** The sequence cut into consecutive rows of `width` elements. */
  function Rows<T>(s: seq<T>, width: nat): (rows: seq<seq<T>>)
    requires width > 0 && |s| % width == 0
    ensures forall r :: 0 <= r < |rows| ==> |rows[r]| == width
    decreases |s|
  {
    if |s| == 0 then []
    else
      MultipleStep(|s|, width);
      Rows(s[..|s| - width], width) + [s[|s| - width..]]
  }

  /** The rows put one after the other. */
  function Flatten<T>(rows: seq<seq<T>>): seq<T> {
    if |rows| == 0 then [] else Flatten(rows[..|rows| - 1]) + rows[|rows| - 1]
  }

  /** Column `c` of a grid, top to bottom. */
  function Column<T>(grid: seq<seq<T>>, c: nat): (col: seq<T>)
    requires forall r :: 0 <= r < |grid| ==> c < |grid[r]|
    ensures |col| == |grid|
  {
    seq(|grid|, r requires 0 <= r < |grid| => grid[r][c])
  }

  /** A grid of rows of `k` cells. */
  predicate IsGrid<T>(grid: seq<seq<T>>, k: nat) {
    forall r :: 0 <= r < |grid| ==> |grid[r]| == k
  }

  /** The columns of the grid in key order. */
  function ColumnsInOrder<T>(grid: seq<seq<T>>, order: seq<nat>): (cols: seq<seq<T>>)
    requires IsGrid(grid, |order|) && forall j :: 0 <= j < |order| ==> order[j] < |order|
    ensures |cols| == |order| && IsGrid(cols, |grid|)
  {
    seq(|order|, j requires 0 <= j < |order| => Column(grid, order[j]))
  }

  // ---------------------------------------------------------------------------
  // The transposition

  /** `encrypt` after padding: the columns of the grid of `k`-wide rows, read
      in key order. */
  function Transposed(padded: string, k: nat, order: seq<nat>): string
    requires k > 0 && |padded| % k == 0 && IsOrder(order, k)
  {
    Flatten(ColumnsInOrder(Rows(padded, k), order))
  }

  /** The text cut to whole rows of `k`: at most `k - 1` characters are
      dropped from its end. */
  function WholeRows(t: string, k: nat): (r: string)
    requires k > 0
    ensures |r| == (|t| / k) * k && |r| % k == 0
    ensures |r| <= |t| < |r| + k && r == t[..|r|]
  {
    RowsFit(|t|, k);
    t[..(|t| / k) * k]
  }

  /** The first `rows * k` characters cut into `k` stretches of `rows`, the
      stretch `j` going to column `order[j]`. */
  function Stretches(text: string, k: nat, rows: nat): (cols: seq<string>)
    requires k > 0 && rows > 0 && rows * k <= |text|
    ensures |cols| == k && IsGrid(cols, rows)
  {
    var whole := text[..rows * k];
    FullStretches(rows, k);
    RowsCount(whole, rows);
    MulCancel(|Rows(whole, rows)|, k, rows);
    Rows(whole, rows)
  }

  /** The grid `decrypt` fills: cell `(r, c)` holds row `r` of the stretch
      of column `c`. */
  function FilledGrid(text: string, k: nat, order: seq<nat>): (grid: seq<string>)
    requires k > 0 && IsOrder(order, k) && |text| / k > 0
    ensures |grid| == |text| / k && IsGrid(grid, k)
  {
    var rows := |text| / k;
    RowsFit(|text|, k);
    var cols := Stretches(text, k, rows);
    seq(rows, r requires 0 <= r < rows =>
      seq(k, c requires 0 <= c < k => cols[IndexOf(order, c)][r]))
  }

  /** `decrypt` after cleaning: the filled grid read row by row; fewer
      characters than the key length give no row at all. */
  function Untransposed(text: string, k: nat, order: seq<nat>): string
    requires k > 0 && IsOrder(order, k)
  {
    if |text| / k == 0 then "" else Flatten(FilledGrid(text, k, order))
  }

  // ---------------------------------------------------------------------------
  // encrypt and decrypt

  /** `PermutationCipher.encrypt`: an empty key is refused first, then an
      empty cleaned text gives the empty string. */
  function Encryption(plaintext: string, key: string): Result<string> {
    if |key| == 0 then Err(EMPTY_KEY_ERROR)
    else
      var t := CleanText(plaintext, false);
      if |t| == 0 then Ok("")
      else
        PadXProperties(t, |key|);
        KeyOrderIsOrder(key);
        Ok(Transposed(PadX(t, |key|), |key|, KeyOrder(key)))
  }

  /** `PermutationCipher.decrypt` */
  function Decryption(ciphertext: string, key: string): Result<string> {
    if |key| == 0 then Err(EMPTY_KEY_ERROR)
    else
      var t := CleanText(ciphertext, false);
      if |t| == 0 then Ok("")
      else
        KeyOrderIsOrder(key);
        Ok(Untransposed(t, |key|, KeyOrder(key)))
  }

  method Encrypt(plaintext: string, key: string) returns (r: Result<string>)
    ensures r == Encryption(plaintext, key)
  {
    if |key| == 0 {
      return Err(EMPTY_KEY_ERROR);
    }
    var cleaned := CleanText(plaintext, false);
    if |cleaned| == 0 {
      return Ok("");
    }
    var keyOrder := KeyOrder(key);
    KeyOrderIsOrder(key);
    PadXProperties(cleaned, |key|);
    var grid := CreateGrid(cleaned, |key|);
    var encrypted := ReadColumns(grid, keyOrder);
    return Ok(encrypted);
  }

  /** `_create_grid(text, key_length)` */
  method CreateGrid(text: string, keyLength: nat) returns (grid: seq<string>)
    requires keyLength > 0
    ensures |PadX(text, keyLength)| % keyLength == 0
    ensures grid == Rows(PadX(text, keyLength), keyLength)
  {
    PadXProperties(text, keyLength);
    var t := PadWithX(text, keyLength);
    grid := [];
    var i := 0;
    while i < |t|
      invariant 0 <= i <= |t| && i % keyLength == 0
      invariant grid == Rows(t[..i], keyLength)
      decreases |t| - i
    {
      NextMultiple(i, |t|, keyLength);
      assert t[..i + keyLength][..i] == t[..i];
      assert t[..i + keyLength][i..] == t[i..i + keyLength];
      grid := grid + [t[i..i + keyLength]];
      ModAddMultiple(1, i, keyLength);
      i := i + keyLength;
    }
    assert t[..|t|] == t;
  }

  /** The column loop of `encrypt`: column `key_order[j]`, for `j` in order,
      read top to bottom. */
  method ReadColumns(grid: seq<string>, keyOrder: seq<nat>) returns (encrypted: string)
    requires IsOrder(keyOrder, |keyOrder|) && IsGrid(grid, |keyOrder|)
    ensures encrypted == Flatten(ColumnsInOrder(grid, keyOrder))
  {
    ghost var cols := ColumnsInOrder(grid, keyOrder);
    encrypted := "";
    for j := 0 to |keyOrder|
      invariant encrypted == Flatten(cols[..j])
    {
      var colIndex := keyOrder[j];
      for r := 0 to |grid|
        invariant encrypted == Flatten(cols[..j]) + cols[j][..r]
      {
        assert cols[j][..r + 1] == cols[j][..r] + [grid[r][colIndex]];
        if colIndex < |grid[r]| {
          encrypted := encrypted + [grid[r][colIndex]];
        }
      }
      assert cols[j][..|grid|] == cols[j];
      assert cols[..j + 1][..j] == cols[..j];
    }
    assert cols[..|keyOrder|] == cols;
  }

  method Decrypt(ciphertext: string, key: string) returns (r: Result<string>)
    ensures r == Decryption(ciphertext, key)
  {
    if |key| == 0 {
      return Err(EMPTY_KEY_ERROR);
    }
    var cleaned := CleanText(ciphertext, false);
    if |cleaned| == 0 {
      return Ok("");
    }
    var keyOrder := KeyOrder(key);
    KeyOrderIsOrder(key);
    var keyLength := |key|;
    var numRows := |cleaned| / keyLength;
    RowsFit(|cleaned|, keyLength);
    var grid := new char[numRows, keyLength]((_, _) => ' ');
    FillColumns(grid, cleaned, keyOrder);
    var decrypted := ReadRows(grid, cleaned, keyOrder);
    return Ok(decrypted);
  }

  /** The fill loop of `decrypt`: column `key_order[j]` receives stretch `j`.
      (The cells start out blank; every one is written.) */
  method FillColumns(grid: array2<char>, cleaned: string, keyOrder: seq<nat>)
    requires grid.Length1 > 0 && IsOrder(keyOrder, grid.Length1)
    requires grid.Length0 * grid.Length1 <= |cleaned|
    modifies grid
    ensures grid.Length0 > 0 ==> forall j, row :: 0 <= j < grid.Length1 && 0 <= row < grid.Length0 ==>
      grid[row, keyOrder[j]] == Stretches(cleaned, grid.Length1, grid.Length0)[j][row]
  {
    var numRows, keyLength := grid.Length0, grid.Length1;
    ghost var stretches: seq<string> := if numRows > 0 then Stretches(cleaned, keyLength, numRows) else seq(keyLength, _ => []);
    var textIndex: nat := 0;
    for j := 0 to keyLength
      invariant textIndex == Offset(j, numRows)
      invariant forall j', row :: 0 <= j' < j && 0 <= row < numRows ==>
        grid[row, keyOrder[j']] == stretches[j'][row]
    {
      assert textIndex + numRows <= |cleaned| by {
        if numRows > 0 {
          StretchRun(cleaned, keyLength, numRows, j);
        } else {
          OffsetIsSlot(j, 0);
        }
      }
      assert forall row :: 0 <= row < numRows ==> cleaned[textIndex + row] == stretches[j][row] by {
        if numRows > 0 {
          StretchRun(cleaned, keyLength, numRows, j);
        }
      }
      textIndex := FillColumn(grid, cleaned, keyOrder, j, textIndex, stretches);
    }
  }

  /** One pass of the fill loop: rows `0 .. num_rows` of column `key_order[j]`
      receive the characters from `start` on, which are stretch `j`. */
  method FillColumn(grid: array2<char>, cleaned: string, keyOrder: seq<nat>, j: nat, start: nat,
                    ghost stretches: seq<string>)
    returns (next: nat)
    requires IsOrder(keyOrder, grid.Length1) && j < grid.Length1
    requires |stretches| == grid.Length1 && IsGrid(stretches, grid.Length0)
    requires start + grid.Length0 <= |cleaned|
    requires forall row :: 0 <= row < grid.Length0 ==> cleaned[start + row] == stretches[j][row]
    requires forall j', row :: 0 <= j' < j && 0 <= row < grid.Length0 ==>
      grid[row, keyOrder[j']] == stretches[j'][row]
    modifies grid
    ensures next == start + grid.Length0
    ensures forall j', row :: 0 <= j' < j + 1 && 0 <= row < grid.Length0 ==>
      grid[row, keyOrder[j']] == stretches[j'][row]
  {
    var colIndex := keyOrder[j];
    assert forall j' :: 0 <= j' < j ==> keyOrder[j'] != colIndex;
    var textIndex := start;
    for row := 0 to grid.Length0
      invariant textIndex == start + row
      invariant forall row' :: 0 <= row' < row ==> grid[row', colIndex] == stretches[j][row']
      invariant forall j', row' :: 0 <= j' < j && 0 <= row' < grid.Length0 ==>
        grid[row', keyOrder[j']] == stretches[j'][row']
    {
      if textIndex < |cleaned| {
        grid[row, colIndex] := cleaned[textIndex];
        textIndex := textIndex + 1;
      }
    }
    next := textIndex;
  }

  /** The read loop of `decrypt`: the rows, one after the other. */
  method ReadRows(grid: array2<char>, cleaned: string, keyOrder: seq<nat>) returns (decrypted: string)
    requires grid.Length1 > 0 && IsOrder(keyOrder, grid.Length1)
    requires grid.Length0 == |cleaned| / grid.Length1 && grid.Length0 * grid.Length1 <= |cleaned|
    requires grid.Length0 > 0 ==> forall j, row :: 0 <= j < grid.Length1 && 0 <= row < grid.Length0 ==>
      grid[row, keyOrder[j]] == Stretches(cleaned, grid.Length1, grid.Length0)[j][row]
    ensures decrypted == Untransposed(cleaned, grid.Length1, keyOrder)
  {
    var numRows, keyLength := grid.Length0, grid.Length1;
    decrypted := "";
    if numRows == 0 {
      return;
    }
    ghost var filled := FilledGrid(cleaned, keyLength, keyOrder);
    for row := 0 to numRows
      invariant decrypted == Flatten(filled[..row])
    {
      for col := 0 to keyLength
        invariant decrypted == Flatten(filled[..row]) + filled[row][..col]
      {
        ghost var j := IndexOf(keyOrder, col);
        assert grid[row, keyOrder[j]] == filled[row][col];
        assert filled[row][..col + 1] == filled[row][..col] + [grid[row, col]];
        decrypted := decrypted + [grid[row, col]];
      }
      assert filled[row][..keyLength] == filled[row];
      assert filled[..row + 1][..row] == filled[..row];
    }
    assert filled[..numRows] == filled;
    assert decrypted == Flatten(filled);
  }

  // ---------------------------------------------------------------------------
  // Arithmetic of grid positions

  /** The position of cell `(row, col)` when rows of `width` cells are laid
      one after the other. */
  function Slot(row: int, col: int, width: int): int {
    row * width + col
  }

  /** `n // k` whole rows of `k` fit in `n`, with fewer than `k` left over. */
  lemma RowsFit(n: nat, k: nat)
    requires k > 0
    ensures 0 <= n / k && (n / k) * k <= n < (n / k) * k + k && ((n / k) * k) % k == 0
  {
    assert n == k * (n / k) + n % k;
    ModAddMultiple(n / k, 0, k);
  }

  /** `k` stretches of `rows` make a multiple of `rows`. */
  lemma FullStretches(rows: nat, k: nat)
    requires rows > 0
    ensures (rows * k) % rows == 0
  {
    ModAddMultiple(k, 0, rows);
  }

  lemma MulCancel(a: int, b: int, w: int)
    requires w > 0 && a * w == w * b
    ensures a == b
  {
    assert (a - b) * w == 0;
  }

  /** The rows number `|s| / width`: `|rows| * width == |s|`. */
  lemma {:induction false} RowsCount<T>(s: seq<T>, width: nat)
    requires width > 0 && |s| % width == 0
    ensures |Rows(s, width)| * width == |s|
    decreases |s|
  {
    if |s| > 0 {
      MultipleStep(|s|, width);
      RowsCount(s[..|s| - width], width);
      var n := |Rows(s[..|s| - width], width)|;
      assert (n + 1) * width == n * width + width;
    }
  }

  /** Element `c` of row `r` is element `Slot(r, c, width)` of the sequence. */
  lemma {:induction false} RowsCell<T>(s: seq<T>, width: nat, r: nat, c: nat)
    requires width > 0 && |s| % width == 0 && r < |Rows(s, width)| && c < width
    ensures 0 <= Slot(r, c, width) < |s| && Rows(s, width)[r][c] == s[Slot(r, c, width)]
    decreases |s|
  {
    MultipleStep(|s|, width);
    var front := s[..|s| - width];
    RowsCount(front, width);
    if r == |Rows(front, width)| {
      assert Slot(r, c, width) == |s| - width + c;
    } else {
      RowsCell(front, width, r, c);
    }
  }

  /** Cell `row` of stretch `j` is character `Slot(j, row, rows)` of the text. */
  lemma StretchCell(text: string, k: nat, rows: nat, j: nat, row: nat)
    requires k > 0 && 0 < rows && rows * k <= |text| && j < k && row < rows
    ensures Slot(j, 0, rows) + row < |text|
    ensures text[Slot(j, 0, rows) + row] == Stretches(text, k, rows)[j][row]
  {
    var whole := text[..rows * k];
    FullStretches(rows, k);
    assert Stretches(text, k, rows) == Rows(whole, rows);
    RowsCell(whole, rows, j, row);
    assert Slot(j, row, rows) == Slot(j, 0, rows) + row;
    assert whole[Slot(j, row, rows)] == text[Slot(j, row, rows)];
  }

  /** Stretch `j` is the run of `rows` characters from `Offset(j, rows)`. */
  lemma StretchRun(text: string, k: nat, rows: nat, j: nat)
    requires k > 0 && 0 < rows && rows * k <= |text| && j < k
    ensures Offset(j, rows) + rows <= |text|
    ensures forall row :: 0 <= row < rows ==> text[Offset(j, rows) + row] == Stretches(text, k, rows)[j][row]
  {
    OffsetIsSlot(j, rows);
    StretchCell(text, k, rows, j, rows - 1);
    forall row | 0 <= row < rows
      ensures Offset(j, rows) + row < |text| && text[Offset(j, rows) + row] == Stretches(text, k, rows)[j][row]
    {
      StretchCell(text, k, rows, j, row);
    }
  }

  /** Where stretch `j` starts, counted the way the fill loop counts: `j`
      stretches of `width` one after the other. */
  function Offset(j: nat, width: nat): nat {
    if j == 0 then 0 else Offset(j - 1, width) + width
  }

  lemma {:induction false} OffsetIsSlot(j: nat, width: nat)
    ensures Offset(j, width) == Slot(j, 0, width)
  {
    if j > 0 {
      OffsetIsSlot(j - 1, width);
      assert (j - 1) * width + width == j * width;
    }
  }

  // ---------------------------------------------------------------------------
  // Properties


  /** The key order is a permutation of the columns, stably sorted by the
      upper-cased key characters: ties keep their left-to-right order. */
  lemma {:induction false} KeyOrderIsOrder(key: string)
    ensures IsOrder(KeyOrder(key), |key|)
    ensures StablySorted(Codes(Upper(key)), KeyOrder(key))
  {
    ArgSortPermutation(Codes(Upper(key)));
  }

  /** Joining the rows gives the sequence back. */
  lemma {:induction false} FlattenRows<T>(s: seq<T>, width: nat)
    requires width > 0 && |s| % width == 0
    ensures Flatten(Rows(s, width)) == s
    decreases |s|
  {
    if |s| > 0 {
      MultipleStep(|s|, width);
      var front := s[..|s| - width];
      var rows := Rows(s, width);
      assert rows[..|rows| - 1] == Rows(front, width);
      FlattenRows(front, width);
      assert front + s[|s| - width..] == s;
    }
  }

  /** Rows of `width` cells, joined, have `|rows| * width` elements. */
  lemma {:induction false} FlattenLength<T>(rows: seq<seq<T>>, width: nat)
    requires IsGrid(rows, width)
    ensures |Flatten(rows)| == |rows| * width
  {
    if |rows| > 0 {
      var n := |rows| - 1;
      FlattenLength(rows[..n], width);
      assert (n + 1) * width == n * width + width;
    }
  }

  /** Cutting joined rows of `width` cells gives the rows back. */
  lemma {:induction false} RowsFlatten<T>(rows: seq<seq<T>>, width: nat)
    requires width > 0 && IsGrid(rows, width)
    ensures |Flatten(rows)| % width == 0 && Rows(Flatten(rows), width) == rows
  {
    FlattenLength(rows, width);
    ModAddMultiple(|rows|, 0, width);
    if |rows| > 0 {
      var n := |rows| - 1;
      var s := Flatten(rows);
      FlattenLength(rows[..n], width);
      assert s[..|s| - width] == Flatten(rows[..n]);
      assert s[|s| - width..] == rows[n];
      RowsFlatten(rows[..n], width);
      assert rows[..n] + [rows[n]] == rows;
    }
  }

  /** A grid whose rows are upper-case text joins to upper-case text. */
  lemma {:induction false} FlattenUpper(rows: seq<string>)
    requires forall r :: 0 <= r < |rows| ==> IsUpperText(rows[r])
    ensures IsUpperText(Flatten(rows))
  {
    if |rows| > 0 {
      FlattenUpper(rows[..|rows| - 1]);
    }
  }

  /** The column reading keeps the length of the padded text. */
  lemma {:induction false} TransposedLength(padded: string, k: nat, order: seq<nat>)
    requires k > 0 && |padded| % k == 0 && IsOrder(order, k)
    ensures |Transposed(padded, k, order)| == |padded|
    ensures |padded| / k == |Rows(padded, k)|
  {
    var grid := Rows(padded, k);
    var cols := ColumnsInOrder(grid, order);
    assert |grid| * k == |padded| by { RowsCount(padded, k); }
    assert |Flatten(cols)| == k * |grid| by {
      FlattenLength(cols, |grid|);
      assert |cols| == k;
    }
    assert |padded| / k == |grid| by { DivModUnique(|padded|, k, |grid|, 0); }
  }

  /** Reading the columns back into the grid gives the padded text. */
  lemma {:induction false} UntransposeTransposed(padded: string, k: nat, order: seq<nat>)
    requires k > 0 && |padded| % k == 0 && IsOrder(order, k)
    ensures Untransposed(Transposed(padded, k, order), k, order) == padded
  {
    var grid := Rows(padded, k);
    var cols := ColumnsInOrder(grid, order);
    var c := Transposed(padded, k, order);
    TransposedLength(padded, k, order);
    if |grid| == 0 {
      RowsCount(padded, k);
    } else {
      var rows := |grid|;
      assert c[..rows * k] == c by { RowsCount(padded, k); }
      RowsFlatten(cols, rows);
      assert Stretches(c, k, rows) == cols;
      var filled := FilledGrid(c, k, order);
      assert |filled| == |grid|;
      forall r | 0 <= r < rows ensures filled[r] == grid[r] {
        forall col | 0 <= col < k ensures filled[r][col] == grid[r][col] {
          var j := IndexOf(order, col);
          assert cols[j][r] == grid[r][order[j]];
        }
      }
      assert filled == grid;
      FlattenRows(padded, k);
    }
  }

  /** Putting the grid filled from a whole number of rows back into columns
      gives those rows. */
  lemma {:induction false} TransposeUntransposed(text: string, k: nat, order: seq<nat>)
    requires k > 0 && IsOrder(order, k)
    ensures |Untransposed(text, k, order)| == |WholeRows(text, k)|
    ensures Transposed(Untransposed(text, k, order), k, order) == WholeRows(text, k)
  {
    var rows := |text| / k;
    var u := Untransposed(text, k, order);
    if rows == 0 {
      var cols := ColumnsInOrder(Rows(u, k), order);
      FlattenLength(cols, 0);
    } else {
      var filled := FilledGrid(text, k, order);
      RowsFit(|text|, k);
      var stretches := Stretches(text, k, rows);
      FlattenLength(filled, k);
      RowsFlatten(filled, k);
      var cols := ColumnsInOrder(filled, order);
      forall j | 0 <= j < k ensures cols[j] == stretches[j] {
        assert IndexOf(order, order[j]) == j;
        forall r | 0 <= r < rows ensures cols[j][r] == stretches[j][r] {
        }
      }
      assert cols == stretches;
      FullStretches(rows, k);
      FlattenRows(text[..rows * k], rows);
    }
  }

  /** The filled grid holds only characters of the text. */
  lemma {:induction false} UntransposedUpper(text: string, k: nat, order: seq<nat>)
    requires k > 0 && IsOrder(order, k) && IsUpperText(text)
    ensures IsUpperText(Untransposed(text, k, order))
  {
    var rows := |text| / k;
    if rows > 0 {
      RowsFit(|text|, k);
      var filled := FilledGrid(text, k, order);
      var stretches := Stretches(text, k, rows);
      forall j | 0 <= j < k ensures IsUpperText(stretches[j]) {
        forall r | 0 <= r < rows ensures IsUpperLetter(stretches[j][r]) {
          StretchCell(text, k, rows, j, r);
        }
      }
      forall r | 0 <= r < rows ensures IsUpperText(filled[r]) {
        forall c | 0 <= c < k ensures IsUpperLetter(filled[r][c]) {
          assert filled[r][c] == stretches[IndexOf(order, c)][r];
        }
      }
      FlattenUpper(filled);
    }
  }

  /** Encryption keeps exactly the letters of the padded text: its length is
      the cleaned length rounded up to a multiple of the key length. */
  lemma {:induction false} EncryptionLength(plaintext: string, key: string)
    requires |key| > 0 && |CleanText(plaintext, false)| > 0
    ensures |Encryption(plaintext, key).value| == |PadX(CleanText(plaintext, false), |key|)|
    ensures |Encryption(plaintext, key).value| % |key| == 0
    ensures |Encryption(plaintext, key).value| < |CleanText(plaintext, false)| + |key|
  {
    var t := CleanText(plaintext, false);
    PadXProperties(t, |key|);
    KeyOrderIsOrder(key);
    TransposedLength(PadX(t, |key|), |key|, KeyOrder(key));
  }

  /** Decryption keeps only whole rows: `(len(cleaned) div k) * k` letters. */
  lemma {:induction false} DecryptionLength(ciphertext: string, key: string)
    requires |key| > 0
    ensures |Decryption(ciphertext, key).value| == (|CleanText(ciphertext, false)| / |key|) * |key|
  {
    var t := CleanText(ciphertext, false);
    if |t| == 0 {
      DivModUnique(0, |key|, 0, 0);
    } else {
      KeyOrderIsOrder(key);
      assert Decryption(ciphertext, key) == Ok(Untransposed(t, |key|, KeyOrder(key)));
      TransposeUntransposed(t, |key|, KeyOrder(key));
    }
  }

  /** `decrypt(encrypt(t, key), key)` is the cleaned text padded with `X` to
      a multiple of the key length. */
  lemma {:induction false} DecryptEncrypt(plaintext: string, key: string)
    requires Encryption(plaintext, key).Ok?
    ensures Decryption(Encryption(plaintext, key).value, key) == Ok(PadX(CleanText(plaintext, false), |key|))
  {
    var t := CleanText(plaintext, false);
    if |t| == 0 {
      assert Encryption(plaintext, key) == Ok("");
      assert PadX(t, |key|) == "" by { ModAddMultiple(1, 0, |key|); }
      assert CleanText("", false) == "";
    } else {
      var padded := PadX(t, |key|);
      assert |padded| > 0 && |padded| % |key| == 0 && IsUpperText(padded) by {
        PadXProperties(t, |key|);
      }
      KeyOrderIsOrder(key);
      assert Encryption(plaintext, key) == Ok(Transposed(padded, |key|, KeyOrder(key)));
      DecryptTransposed(padded, key);
    }
  }

  /** Decryption undoes the column reading of a padded upper-case text. */
  lemma {:induction false} DecryptTransposed(padded: string, key: string)
    requires |key| > 0 && |padded| > 0 && |padded| % |key| == 0 && IsUpperText(padded)
    ensures IsOrder(KeyOrder(key), |key|)
    ensures Decryption(Transposed(padded, |key|, KeyOrder(key)), key) == Ok(padded)
  {
    KeyOrderIsOrder(key);
    var order := KeyOrder(key);
    var c := Transposed(padded, |key|, order);
    assert |c| > 0 by { TransposedLength(padded, |key|, order); }
    assert CleanText(c, false) == c by {
      TransposedUpper(padded, |key|, order);
      CleanTextOfUpper(c);
    }
    assert Untransposed(c, |key|, order) == padded by {
      UntransposeTransposed(padded, |key|, order);
    }
  }

  /** The column reading holds only characters of the padded text. */
  lemma {:induction false} TransposedUpper(padded: string, k: nat, order: seq<nat>)
    requires k > 0 && |padded| % k == 0 && IsOrder(order, k) && IsUpperText(padded)
    ensures IsUpperText(Transposed(padded, k, order))
  {
    var grid := Rows(padded, k);
    var cols := ColumnsInOrder(grid, order);
    forall j | 0 <= j < k ensures IsUpperText(cols[j]) {
      forall r | 0 <= r < |grid| ensures IsUpperLetter(cols[j][r]) {
        RowsCell(padded, k, r, order[j]);
      }
    }
    FlattenUpper(cols);
  }

  /** `encrypt(decrypt(c, key), key)` is the cleaned text cut to whole rows. */
  lemma {:induction false} EncryptDecrypt(ciphertext: string, key: string)
    requires Decryption(ciphertext, key).Ok?
    ensures |key| > 0
    ensures Encryption(Decryption(ciphertext, key).value, key) ==
      Ok(WholeRows(CleanText(ciphertext, false), |key|))
  {
    var t := CleanText(ciphertext, false);
    if |t| == 0 {
      assert CleanText("", false) == "";
    } else {
      KeyOrderIsOrder(key);
      var order := KeyOrder(key);
      var u := Untransposed(t, |key|, order);
      assert Decryption(ciphertext, key) == Ok(u);
      TransposeUntransposed(t, |key|, order);
      UntransposedUpper(t, |key|, order);
      CleanTextOfUpper(u);
      PadXProperties(u, |key|);
      if |u| == 0 {
        assert CleanText("", false) == "";
      }
    }
  }

  /** Under the key BA the text ABCD becomes BDAC: column 1 (B, D), then
      column 0 (A, C). */
  lemma {:induction false} SwapExample()
    ensures KeyOrder("BA") == [1, 0]
    ensures IsOrder([1, 0], 2) && Transposed("ABCD", 2, [1, 0]) == "BDAC"
  {
    SwapOrder();
    SwapColumns();
  }

  /** `encrypt("ABCD", "BA")` is BDAC. */
  lemma {:induction false} SwapEncryptionExample()
    ensures Encryption("ABCD", "BA") == Ok("BDAC")
  {
    CleanTextOfUpper("ABCD");
    PadXProperties("ABCD", 2);
    SwapExample();
  }

  lemma {:induction false} SwapOrder()
    ensures KeyOrder("BA") == [1, 0]
  {
    assert Upper("BA") == "BA";
    assert Codes("BA") == [66, 65];
    KeyOrderIsOrder("BA");
    var order := KeyOrder("BA");
    assert Before([66, 65], order[0], order[1]);
    assert order[0] != order[1];
  }

  lemma {:induction false} SwapColumns()
    ensures IsOrder([1, 0], 2) && Transposed("ABCD", 2, [1, 0]) == "BDAC"
  {
    assert IsOrder([1, 0], 2) by {
      assert 0 in [1, 0] && 1 in [1, 0];
    }
    SwapGrid();
    SwapRead();
  }

  lemma {:induction false} SwapGrid()
    ensures Rows("ABCD", 2) == ["AB", "CD"]
  {
    assert Rows("AB", 2) == ["AB"] by {
      assert "AB"[..0] == [] && "AB"[0..] == "AB";
    }
    assert "ABCD"[..2] == "AB" && "ABCD"[2..] == "CD";
  }

  lemma {:induction false} SwapRead()
    ensures Flatten(ColumnsInOrder(["AB", "CD"], [1, 0])) == "BDAC"
  {
    var cols := ColumnsInOrder(["AB", "CD"], [1, 0]);
    assert cols[0] == "BD" by { assert cols[0][0] == 'B' && cols[0][1] == 'D'; }
    assert cols[1] == "AC" by { assert cols[1][0] == 'A' && cols[1][1] == 'C'; }
    assert cols == ["BD", "AC"];
    assert Flatten(cols) == Flatten(["BD"]) + "AC";
    assert Flatten(["BD"]) == Flatten([]) + "BD";
  }
}
