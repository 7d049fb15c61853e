/** Decrypting what `encrypt` wrote, on a grid of at most 9 x 9: the message
    comes back exactly when every character is a space or a symbol of the grid,
    and otherwise the first `"XX"` makes `decrypt` raise `ValueError`. Both
    hold whatever the random draws are. */
module RoundTrip {
  import opened Text
  import opened Grid
  import opened Positions
  import opened Encryption
  import opened Decryption

  /** Every character of `msg` is a space or a symbol the grid holds. */
  predicate Encodable(m: Matrix, msg: string) {
    forall i :: 0 <= i < |msg| ==> msg[i] == ' ' || Occurs(m, msg[i])
  }

  /** Every coordinate `full` lists lies in the grid, holds the symbol it is
      listed under, and is a single digit on each axis. */
  predicate ReadableIndex(full: Index, m: Matrix) {
    && IndexValid(full)
    && SingleDigitCoords(full)
    && forall ch, co :: ch in full && co in full[ch] ==> InGrid(m, co) && At(m, co) == ch
  }

  /** On a grid of at most 9 x 9 the position index is readable, and its keys
      are the symbols the grid holds. */
  lemma PositionsReadable(m: Matrix)
    requires SmallGrid(m)
    ensures ReadableIndex(PositionsOf(m), m)
    ensures forall ch :: ch in PositionsOf(m) <==> Occurs(m, ch)
  {
    PositionsConsistent(m);
    SmallGridDigits(m);
  }

  /** Emission `e` is a token `decrypt` reads back as character `c`: a
      masking token for a space, or the single-digit coordinate of a cell
      holding `c`. */
  predicate ReadsAs(e: Emission, c: char, m: Matrix) {
    match e
    case SpaceMask(prefix, number) => c == ' ' && IsAsciiUpper(prefix) && 11 <= number <= 77
    case Coordinate(co) => InGrid(m, co) && co.row < 10 && co.col < 10 && At(m, co) == c
    case Absent => false
  }

  /** A token followed by anything decrypts to the character it stands for
      followed by what the rest decrypts to. */
  lemma TokenDecrypts(e: Emission, c: char, m: Matrix, rest: string)
    requires ReadsAs(e, c, m)
    ensures Decrypted(Token(e) + rest, m) == Prepend([c], Decrypted(rest, m))
  {
    match e
    case SpaceMask(prefix, number) =>
      DecryptSpaceToken(prefix, number, rest, m);
    case Coordinate(co) =>
      DecryptCellToken(co.row, co.col, rest, m);
  }

  /** Tokens that each read back as a character of `s`, written one after
      another and followed by anything, decrypt to `s` followed by what the
      rest decrypts to. */
  lemma {:induction false} ConcatDecrypts(es: seq<Emission>, s: string, m: Matrix, rest: string)
    requires |es| == |s| && forall i :: 0 <= i < |es| ==> ReadsAs(es[i], s[i], m)
    ensures Decrypted(Concat(es) + rest, m) == Prepend(s, Decrypted(rest, m))
    decreases |es|
  {
    if |es| == 0 {
      assert Concat(es) + rest == rest;
      assert Prepend([], Decrypted(rest, m)) == Decrypted(rest, m);
    } else {
      var tail := Concat(es[1..]) + rest;
      ConcatCons(es, rest);
      ReadableSuffix(es, s, m);
      TokenDecrypts(es[0], s[0], m, tail);
      ConcatDecrypts(es[1..], s[1..], m, rest);
      PrependTwice([s[0]], s[1..], Decrypted(rest, m));
      assert [s[0]] + s[1..] == s;
    }
  }

  /** Writing the first token of a list before the others. */
  lemma {:induction false} ConcatCons(es: seq<Emission>, rest: string)
    requires |es| > 0
    ensures Concat(es) + rest == Token(es[0]) + (Concat(es[1..]) + rest)
    decreases |es|
  {
    var n := |es| - 1;
    if n == 0 {
      assert es[..0] == [] && es[1..] == [];
    } else {
      ConcatCons(es[..n], Token(es[n]) + rest);
      assert es[..n][1..] == es[1..][..n - 1];
      assert es[1..][n - 1] == es[n];
      ConcatSplit(es[1..], rest);
      ConcatSplit(es, rest);
    }
  }

  /** Dropping the first token keeps the others readable. */
  lemma ReadableSuffix(es: seq<Emission>, s: string, m: Matrix)
    requires |es| == |s| > 0 && forall i :: 0 <= i < |es| ==> ReadsAs(es[i], s[i], m)
    ensures forall i :: 0 <= i < |es| - 1 ==> ReadsAs(es[1..][i], s[1..][i], m)
  {
    forall i | 0 <= i < |es| - 1 ensures ReadsAs(es[1..][i], s[1..][i], m) {
      assert es[1..][i] == es[i + 1] && s[1..][i] == s[i + 1];
    }
  }

  /** The first character of `msg` that is neither a space nor a symbol of the
      grid. */
  lemma FirstUnencodable(matrix: Matrix, msg: string) returns (j: nat)
    requires !Encodable(matrix, msg)
    ensures j < |msg| && msg[j] != ' ' && !Occurs(matrix, msg[j])
    ensures forall i :: 0 <= i < j ==> msg[i] == ' ' || Occurs(matrix, msg[i])
  {
    var bad :| 0 <= bad < |msg| && msg[bad] != ' ' && !Occurs(matrix, msg[bad]);
    j := 0;
    while msg[j] == ' ' || Occurs(matrix, msg[j])
      invariant j <= bad
      invariant forall i :: 0 <= i < j ==> msg[i] == ' ' || Occurs(matrix, msg[i])
      decreases bad - j
    {
      j := j + 1;
    }
  }

  /** With a readable index, an emission of the kind a space or a listed
      symbol gets reads back as that character. */
  lemma KindReads(e: Emission, c: char, full: Index, matrix: Matrix)
    requires ReadableIndex(full, matrix)
    requires c == ' ' ==> e.SpaceMask? && IsAsciiUpper(e.prefix) && 11 <= e.number <= 77
    requires c != ' ' && c in full ==> e.Coordinate? && e.at in full[c]
    requires c == ' ' || c in full
    ensures ReadsAs(e, c, matrix)
  {
    if c != ' ' {
      assert InGrid(matrix, e.at) && At(matrix, e.at) == c;
      assert e.at.row < 10 && e.at.col < 10;
    }
  }

  /** With a readable index, a space or a symbol of the grid is written as a
      token that reads back as itself, and any other character as `Absent`. */
  lemma EmittedReads(full: Index, matrix: Matrix, msg: string, rand: nat -> nat, i: nat)
    requires ReadableIndex(full, matrix) && i < |msg|
    ensures msg[i] == ' ' || msg[i] in full ==> ReadsAs(Emitted(full, msg, rand, i), msg[i], matrix)
    ensures msg[i] != ' ' && msg[i] !in full ==> Emitted(full, msg, rand, i) == Absent
  {
    EmittedKinds(full, msg, rand, i);
    if msg[i] == ' ' || msg[i] in full {
      KindReads(Emitted(full, msg, rand, i), msg[i], full, matrix);
    }
  }

  /** With a readable index, every space or symbol of the grid is written as
      a token that reads back as itself, and every other character as
      `Absent`. */
  lemma EmissionsRead(full: Index, matrix: Matrix, msg: string, rand: nat -> nat)
    requires ReadableIndex(full, matrix)
    ensures var es := Emissions(full, msg, rand);
      && |es| == |msg|
      && (forall i :: 0 <= i < |msg| && (msg[i] == ' ' || msg[i] in full) ==> ReadsAs(es[i], msg[i], matrix))
      && (forall i :: 0 <= i < |msg| && msg[i] != ' ' && msg[i] !in full ==> es[i] == Absent)
  {
    var es := Emissions(full, msg, rand);
    forall i | 0 <= i < |msg| ensures
      && ((msg[i] == ' ' || msg[i] in full) ==> ReadsAs(es[i], msg[i], matrix))
      && (msg[i] != ' ' && msg[i] !in full ==> es[i] == Absent)
    {
      EmittedReads(full, matrix, msg, rand, i);
    }
  }

  /** Tokens that all read back decrypt to the whole text. */
  lemma ConcatRoundTrip(es: seq<Emission>, msg: string, m: Matrix)
    requires |es| == |msg| && forall i :: 0 <= i < |es| ==> ReadsAs(es[i], msg[i], m)
    ensures Decrypted(Concat(es), m) == Ok(msg)
  {
    ConcatDecrypts(es, msg, m, "");
    assert Concat(es) + "" == Concat(es);
    assert msg + "" == msg;
  }

  /** Writing the last token of a list before what follows it. */
  lemma ConcatSplit(es: seq<Emission>, rest: string)
    requires |es| > 0
    ensures Concat(es) + rest == Concat(es[..|es| - 1]) + (Token(es[|es| - 1]) + rest)
  {
  }

  /** Tokens that all read back, followed by `"XX"`, make `decrypt` raise
      `ValueError`. */
  lemma AbsentAfterReadable(es: seq<Emission>, said: string, m: Matrix, rest: string)
    requires |es| == |said| && forall i :: 0 <= i < |es| ==> ReadsAs(es[i], said[i], m)
    ensures Decrypted(Concat(es) + (Token(Absent) + rest), m) == Err(ValueError)
  {
    DecryptAbsentToken(rest, m);
    ConcatDecrypts(es, said, m, Token(Absent) + rest);
  }

  /** Tokens whose first unreadable one is `Absent`, followed by anything,
      make `decrypt` raise `ValueError` there. */
  lemma {:induction false} ConcatFails(es: seq<Emission>, msg: string, m: Matrix, j: nat, rest: string)
    requires |es| == |msg| && j < |es| && es[j] == Absent
    requires forall i :: 0 <= i < j ==> ReadsAs(es[i], msg[i], m)
    ensures Decrypted(Concat(es) + rest, m) == Err(ValueError)
    decreases |es|
  {
    var n := |es| - 1;
    ConcatSplit(es, rest);
    ReadablePrefix(es, msg, m, j, n);
    if j == n {
      AbsentAfterReadable(es[..n], msg[..n], m, rest);
    } else {
      ConcatFails(es[..n], msg[..n], m, j, Token(es[n]) + rest);
    }
  }

  /** Cutting both lists at `n` keeps the first `j` tokens readable. */
  lemma ReadablePrefix(es: seq<Emission>, msg: string, m: Matrix, j: nat, n: nat)
    requires |es| == |msg| && j <= n <= |es|
    requires forall i :: 0 <= i < j ==> ReadsAs(es[i], msg[i], m)
    ensures forall i :: 0 <= i < j ==> ReadsAs(es[..n][i], msg[..n][i], m)
  {
  }

  /** `decrypt(encrypt(message, M), M)` on a grid of at most 9 x 9: the message
      itself when every character is a space or a symbol of the grid, and
      `ValueError` otherwise. */
  lemma RoundTrip(matrix: Matrix, msg: string, rand: nat -> nat)
    requires SmallGrid(matrix)
    ensures Decrypted(Encrypted(matrix, msg, rand), matrix)
            == if Encodable(matrix, msg) then Ok(msg) else Err(ValueError)
  {
    var full := PositionsOf(matrix);
    PositionsReadable(matrix);
    EmissionsRead(full, matrix, msg, rand);
    var es := Emissions(full, msg, rand);
    assert es[..|msg|] == es;
    assert Encrypted(matrix, msg, rand) == Concat(es);
    if Encodable(matrix, msg) {
      ConcatRoundTrip(es, msg, matrix);
    } else {
      var j := FirstUnencodable(matrix, msg);
      ConcatFails(es, msg, matrix, j, "");
      assert Concat(es) + "" == Concat(es);
    }
  }

  /** The round trip for a grid `generate_matrix` builds with `size <= 9`. */
  lemma GeneratedRoundTrip(size: nat, draw: nat -> nat, msg: string, rand: nat -> nat)
    requires size <= 9
    ensures var m := GridOf(size, draw);
      Decrypted(Encrypted(m, msg, rand), m) == if Encodable(m, msg) then Ok(msg) else Err(ValueError)
  {
    RoundTrip(GridOf(size, draw), msg, rand);
  }
}
