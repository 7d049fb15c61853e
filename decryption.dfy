/** `decrypt`: scan the ciphertext left to right. A capital letter followed by
    two digits is a masked space; anything else is read as a two-character
    coordinate token `d1 d2` standing for `matrix[d1 - 1][d2 - 1]`. Python
    raises `ValueError` when `int()` meets a non-digit and `IndexError` when
    the token is one character short or the row or column lies outside the
    grid; the model returns those exceptions as `Err` values. A digit `0`
    gives index `-1`, which Python reads as the last row or column. */
module Decryption {
  import opened Text
  import opened Grid
  import opened Positions

  /** `prefix + s` on a computation that may have raised an exception. */
  function Prepend(prefix: string, r: Result<string>): (p: Result<string>)
    ensures p.Ok? <==> r.Ok?
    ensures r.Err? ==> p == r
    ensures r.Ok? ==> |p.value| == |prefix| + |r.value|
    ensures r.Ok? ==> p.value[..|prefix|] == prefix && p.value[|prefix|..] == r.value
  {
    match r
    case Ok(s) => Ok(prefix + s)
    case Err(e) => Err(e)
  }

  lemma PrependTwice(a: string, b: string, r: Result<string>)
    ensures Prepend(a, Prepend(b, r)) == Prepend(a + b, r)
  {
    if r.Ok? {
      assert a + (b + r.value) == (a + b) + r.value;
    }
  }

  /** The test of line 56: an ASCII capital letter with two more characters
      after it, both digits. */
  predicate IsSpaceToken(t: string) {
    |t| > 2 && IsAsciiUpper(t[0]) && IsAsciiDigit(t[1]) && IsAsciiDigit(t[2])
  }

  /** Lines 61-64: the cell a coordinate token at the head of `t` names, or the
      exception reading it raises. */
  function CellToken(t: string, matrix: Matrix): (r: Result<char>)
    requires |t| > 0
    ensures r.Ok? ==> |t| >= 2 && IsAsciiDigit(t[0]) && IsAsciiDigit(t[1])
    ensures !IsAsciiDigit(t[0]) ==> r == Err(ValueError)
    ensures r.Ok? ==> exists row, col ::
      0 <= row < |matrix| && 0 <= col < |matrix[row]| && r.value == matrix[row][col]
  {
    if !IsAsciiDigit(t[0]) then Err(ValueError)
    else if |t| < 2 then Err(IndexError)
    else if !IsAsciiDigit(t[1]) then Err(ValueError)
    else
      var row := DigitValue(t[0]) - 1;
      var col := DigitValue(t[1]) - 1;
      match PyIndex(matrix, row)
      case Err(e) => Err(e)
      case Ok(line) =>
        assert line in matrix;
        PyIndex(line, col)
  }

  /** What `decrypt(t, matrix)` returns, or the exception it raises. */
  function Decrypted(t: string, matrix: Matrix): Result<string>
    decreases |t|
  {
    if |t| == 0 then Ok("")
    else if IsSpaceToken(t) then Prepend(" ", Decrypted(t[3..], matrix))
    else
      match CellToken(t, matrix)
      case Err(e) => Err(e)
      case Ok(x) => Prepend([x], Decrypted(t[2..], matrix))
  }

  /** `decrypt(encrypted_text, matrix)`. */
  method Decrypt(encryptedText: string, matrix: Matrix) returns (r: Result<string>)
    ensures r == Decrypted(encryptedText, matrix)
  {
    var decrypted := "";
    var i := 0;
    while i < |encryptedText|
      invariant 0 <= i <= |encryptedText|
      invariant Decrypted(encryptedText, matrix) == Prepend(decrypted, Decrypted(encryptedText[i..], matrix))
      decreases |encryptedText| - i
    {
      var rest := encryptedText[i..];
      var ch := encryptedText[i];
      if IsAsciiUpper(ch) && i + 2 < |encryptedText|
         && IsAsciiDigit(encryptedText[i + 1]) && IsAsciiDigit(encryptedText[i + 2])
      {
        assert IsSpaceToken(rest) && rest[3..] == encryptedText[i + 3..];
        PrependTwice(decrypted, " ", Decrypted(rest[3..], matrix));
        decrypted := decrypted + " ";
        i := i + 3;
      } else {
        assert !IsSpaceToken(rest);
        var token := encryptedText[i..if i + 2 <= |encryptedText| then i + 2 else |encryptedText|];
        if !IsAsciiDigit(token[0]) {
          return Err(ValueError);
        }
        var row := DigitValue(token[0]) - 1;
        if |token| < 2 {
          return Err(IndexError);
        }
        if !IsAsciiDigit(token[1]) {
          return Err(ValueError);
        }
        var col := DigitValue(token[1]) - 1;
        var line := PyIndex(matrix, row);
        if line.Err? {
          return Err(IndexError);
        }
        var cell := PyIndex(line.value, col);
        if cell.Err? {
          return Err(IndexError);
        }
        assert CellToken(rest, matrix) == cell;
        assert rest[2..] == encryptedText[i + 2..];
        PrependTwice(decrypted, [cell.value], Decrypted(rest[2..], matrix));
        decrypted := decrypted + [cell.value];
        i := i + 2;
      }
    }
    assert encryptedText[i..] == [];
    assert decrypted + "" == decrypted;
    return Ok(decrypted);
  }

  // ---------------------------------------------------------------------------
  // What each kind of token decrypts to

  /** A masking token, a capital letter and a number 11..77, reads back as a
      space. */
  lemma DecryptSpaceToken(prefix: char, number: nat, rest: string, matrix: Matrix)
    requires IsAsciiUpper(prefix) && 11 <= number <= 77
    ensures Decrypted([prefix] + Decimal(number) + rest, matrix) == Prepend(" ", Decrypted(rest, matrix))
  {
    var t := [prefix] + Decimal(number) + rest;
    TwoDigitDecimal(number);
    assert IsSpaceToken(t);
    assert t[3..] == rest;
  }

  /** A coordinate token for a cell of a grid whose row and column are single
      digits reads back as the symbol in that cell. */
  lemma DecryptCellToken(row: nat, col: nat, rest: string, matrix: Matrix)
    requires 1 <= row <= |matrix| && 1 <= col <= |matrix[row - 1]| && row < 10 && col < 10
    ensures Decrypted(Decimal(row) + Decimal(col) + rest, matrix)
            == Prepend([matrix[row - 1][col - 1]], Decrypted(rest, matrix))
  {
    var t := Decimal(row) + Decimal(col) + rest;
    assert t[0] == DigitChar(row) && t[1] == DigitChar(col);
    assert !IsSpaceToken(t);
    assert t[2..] == rest;
    assert CellToken(t, matrix) == Ok(matrix[row - 1][col - 1]);
  }

  /** The token `"XX"` written for a character the grid lacks cannot be read
      back: `int('X')` raises `ValueError`. */
  lemma DecryptAbsentToken(rest: string, matrix: Matrix)
    ensures Decrypted("XX" + rest, matrix) == Err(ValueError)
  {
    var t := "XX" + rest;
    assert t[0] == 'X' && t[1] == 'X';
    assert !IsSpaceToken(t);
  }

  /** Whatever the input, a successful decryption yields only spaces and
      symbols of the grid. */
  lemma {:induction false} DecryptedSymbols(t: string, matrix: Matrix)
    ensures Decrypted(t, matrix).Ok? ==> forall i :: 0 <= i < |Decrypted(t, matrix).value| ==>
      Decrypted(t, matrix).value[i] == ' ' || Occurs(matrix, Decrypted(t, matrix).value[i])
    decreases |t|
  {
    if |t| > 0 && Decrypted(t, matrix).Ok? {
      var s := Decrypted(t, matrix).value;
      if IsSpaceToken(t) {
        DecryptedSymbols(t[3..], matrix);
        assert s == " " + Decrypted(t[3..], matrix).value;
      } else {
        DecryptedSymbols(t[2..], matrix);
        var x := CellToken(t, matrix).value;
        assert s == [x] + Decrypted(t[2..], matrix).value;
        assert Occurs(matrix, x);
      }
    }
  }
}
