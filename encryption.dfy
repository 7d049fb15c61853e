/** `encrypt`: homophonic substitution over the grid. Every symbol is written
    as the 1-based (row, column) of one of its cells, taken without
    replacement from a per-symbol pool that is refilled from the full index
    once it runs dry; a space becomes a masking token (a capital letter and a
    number 11..77); any other character becomes `"XX"`.

    Randomness is a parameter. By the convention of this model every call of
    `random.choice` and `random.randint` consumes one draw: `rand(t)` is the
    t-th draw, and a choice among `n` options takes option `rand(t) % n`. Every
    option is then possible, and the properties below hold whatever the draws
    are. */
module Encryption {
  import opened Text
  import opened Grid
  import opened Positions

  /** What one character of the message is written as. */
  datatype Emission =
    | SpaceMask(prefix: char, number: nat)  // a space: letter + str(number)
    | Coordinate(at: Coord)                 // a symbol of the grid: f"{r}{c}"
    | Absent                                // anything else: "XX"

  /** The mutable part of an encryption: `positions_pool` and the number of
      draws made so far. */
  datatype State = State(pool: Index, draws: nat)

  /** The emission for one character and the state after it. */
  datatype Step = Step(emission: Emission, after: State)

  /** The pool is keyed like the index, repeats no coordinate, and holds only
      coordinates the index lists for the same symbol. */
  predicate PoolValid(full: Index, pool: Index) {
    && pool.Keys == full.Keys
    && forall ch :: ch in pool ==> NoDup(pool[ch]) && forall co :: co in pool[ch] ==> co in full[ch]
  }

  /** `list.remove(x)`: drop the first occurrence of `x`. */
  function RemoveFirst(s: seq<Coord>, x: Coord): (r: seq<Coord>)
    requires x in s
    ensures |r| == |s| - 1
    ensures multiset(r) == multiset(s) - multiset{x}
  {
    assert s == [s[0]] + s[1..];
    if s[0] == x then s[1..] else [s[0]] + RemoveFirst(s[1..], x)
  }

  /** `s.index(x)`: where `x` first occurs in `s`. */
  function FirstIndex(s: seq<Coord>, x: Coord): (k: nat)
    requires x in s
    ensures k < |s| && s[k] == x && x !in s[..k]
  {
    if s[0] == x then 0
    else
      var j := FirstIndex(s[1..], x);
      assert s[..j + 1] == [s[0]] + s[1..][..j];
      j + 1
  }

  /** `list.remove(x)` takes out the first occurrence of `x` and keeps the
      rest in order. */
  lemma {:induction false} RemoveFirstSplit(s: seq<Coord>, x: Coord)
    requires x in s
    ensures RemoveFirst(s, x) == s[..FirstIndex(s, x)] + s[FirstIndex(s, x) + 1..]
  {
    if s[0] != x {
      var t := s[1..];
      var j := FirstIndex(t, x);
      RemoveFirstSplit(t, x);
      RemoveFirstCons(s, x);
      ConsSlices(s, j);
    }
  }

  /** Past a head that is not `x`, removing and locating `x` both move into the tail. */
  lemma RemoveFirstCons(s: seq<Coord>, x: Coord)
    requires x in s && s[0] != x
    ensures x in s[1..]
    ensures RemoveFirst(s, x) == [s[0]] + RemoveFirst(s[1..], x)
    ensures FirstIndex(s, x) == FirstIndex(s[1..], x) + 1
  {
    assert s == [s[0]] + s[1..];
  }

  /** Cutting a list with its head put back in front. */
  lemma ConsSlices(s: seq<Coord>, j: nat)
    requires j + 1 < |s|
    ensures [s[0]] + (s[1..][..j] + s[1..][j + 1..]) == s[..j + 1] + s[j + 2..]
  {
    assert s[..j + 1] == [s[0]] + s[1..][..j];
    assert s[j + 2..] == s[1..][j + 1..];
  }



  /** The tail of a repetition-free list is repetition-free and lacks the head. */
  lemma NoDupTail(s: seq<Coord>)
    requires |s| > 0 && NoDup(s)
    ensures NoDup(s[1..]) && s[0] !in s[1..]
  {
    forall i, j | 0 <= i < j < |s| - 1 ensures s[1..][i] != s[1..][j] {
      assert s[1..][i] == s[i + 1] && s[1..][j] == s[j + 1];
    }
    forall k | 0 <= k < |s| - 1 ensures s[1..][k] != s[0] {
      assert s[1..][k] == s[k + 1];
    }
  }

  /** Putting a new element in front of a repetition-free list keeps it
      repetition-free. */
  lemma NoDupCons(h: Coord, rest: seq<Coord>)
    requires NoDup(rest) && h !in rest
    ensures NoDup([h] + rest)
  {
    var r := [h] + rest;
    forall i, j | 0 <= i < j < |r| ensures r[i] != r[j] {
      assert r[j] == rest[j - 1];
    }
  }

  /** Removing a member of a repetition-free list leaves a repetition-free
      list without it. */
  lemma {:induction false} RemoveFirstNoDup(s: seq<Coord>, x: Coord)
    requires x in s && NoDup(s)
    ensures NoDup(RemoveFirst(s, x)) && x !in RemoveFirst(s, x)
  {
    NoDupTail(s);
    if s[0] != x {
      var rest := RemoveFirst(s[1..], x);
      RemoveFirstNoDup(s[1..], x);
      assert s[0] !in rest by {
        assert multiset(s[1..])[s[0]] == 0;
        assert multiset(rest)[s[0]] == 0;
      }
      NoDupCons(s[0], rest);
    }
  }

  // ---------------------------------------------------------------------------
  // One character (lines 31-47)

  /** `random.choice(string.ascii_uppercase)` with draw `t`. */
  function MaskLetter(t: nat): (c: char)
    ensures IsAsciiUpper(c)
  {
    AsciiUppercaseLetters();
    AsciiUppercase[t % 26]
  }

  /** `random.randint(11, 77)` with draw `t`. */
  function MaskNumber(t: nat): (n: nat)
    ensures 11 <= n <= 77
  {
    11 + t % 67
  }

  /** The pool entry a symbol's coordinate is taken from: its pool, or the full
      list when the pool has run dry. */
  function Available(full: Index, pool: Index, ch: char): seq<Coord>
    requires ch in full && ch in pool
  {
    if pool[ch] == [] then full[ch] else pool[ch]
  }

  /** Encrypt one character `ch` in state `s`. */
  function Take(full: Index, s: State, ch: char, rand: nat -> nat): (r: Step)
    requires IndexValid(full) && PoolValid(full, s.pool)
    ensures PoolValid(full, r.after.pool)
  {
    if ch == ' ' then
      Step(SpaceMask(MaskLetter(rand(s.draws)), MaskNumber(rand(s.draws + 1))), State(s.pool, s.draws + 2))
    else if ch in s.pool then
      var avail := Available(full, s.pool, ch);
      var co := avail[rand(s.draws) % |avail|];
      RemoveFirstNoDup(avail, co);
      var pool := s.pool[ch := RemoveFirst(avail, co)];
      forall x | x in pool[ch] ensures x in full[ch] {
        assert x in multiset(pool[ch]);
        assert x in multiset(avail);
      }
      Step(Coordinate(co), State(pool, s.draws + 1))
    else
      Step(Absent, s)
  }

  /** What encrypting one character does: a space is masked by a capital
      letter and a number 11..77 and leaves the pool alone; a character the
      grid lacks becomes `Absent` and leaves the pool alone; a symbol of the
      grid is written as a coordinate taken out of its pool (or out of its
      full list when the pool has run dry), and no other symbol's pool
      changes. */
  lemma TakeSpec(full: Index, s: State, ch: char, rand: nat -> nat)
    requires IndexValid(full) && PoolValid(full, s.pool)
    ensures var r := Take(full, s, ch, rand);
      && (forall other :: other in s.pool && other != ch ==> r.after.pool[other] == s.pool[other])
      && (ch == ' ' ==>
            && r.emission.SpaceMask?
            && IsAsciiUpper(r.emission.prefix) && 11 <= r.emission.number <= 77
            && r.after.pool == s.pool)
      && (ch != ' ' && ch !in full ==> r.emission == Absent && r.after.pool == s.pool)
      && (ch != ' ' && ch in full ==>
            && r.emission.Coordinate?
            && r.emission.at in Available(full, s.pool, ch)
            && r.emission.at !in r.after.pool[ch]
            && |r.after.pool[ch]| == |Available(full, s.pool, ch)| - 1
            && multiset(r.after.pool[ch]) == multiset(Available(full, s.pool, ch)) - multiset{r.emission.at})
  {
    if ch != ' ' && ch in full {
      var avail := Available(full, s.pool, ch);
      RemoveFirstNoDup(avail, avail[rand(s.draws) % |avail|]);
    }
  }

  /** Take's three cases written out, for the loop of `Encrypt`. */
  lemma TakeSpace(full: Index, s: State, ch: char, rand: nat -> nat)
    requires IndexValid(full) && PoolValid(full, s.pool) && ch == ' '
    ensures Take(full, s, ch, rand) ==
      Step(SpaceMask(MaskLetter(rand(s.draws)), MaskNumber(rand(s.draws + 1))), State(s.pool, s.draws + 2))
  {
  }

  lemma TakeSymbol(full: Index, s: State, ch: char, rand: nat -> nat)
    requires IndexValid(full) && PoolValid(full, s.pool) && ch != ' ' && ch in s.pool
    ensures var avail := Available(full, s.pool, ch);
      var co := avail[rand(s.draws) % |avail|];
      Take(full, s, ch, rand) == Step(Coordinate(co), State(s.pool[ch := RemoveFirst(avail, co)], s.draws + 1))
  {
  }

  lemma TakeAbsent(full: Index, s: State, ch: char, rand: nat -> nat)
    requires IndexValid(full) && PoolValid(full, s.pool) && ch != ' ' && ch !in s.pool
    ensures Take(full, s, ch, rand) == Step(Absent, s)
  {
  }

  /** The characters a character is written as. */
  function Token(e: Emission): string {
    match e
    case SpaceMask(prefix, number) => [prefix] + Decimal(number)
    case Coordinate(co) => Decimal(co.row) + Decimal(co.col)
    case Absent => "XX"
  }

  // ---------------------------------------------------------------------------
  // The whole message (lines 28-48)

  /** The state after the first `n` characters of `msg`; the pool starts as a
      copy of the index. */
  function Run(full: Index, msg: string, rand: nat -> nat, n: nat): (s: State)
    requires IndexValid(full) && n <= |msg|
    ensures PoolValid(full, s.pool)
    decreases n
  {
    if n == 0 then
      State(full, 0)
    else
      Take(full, Run(full, msg, rand, n - 1), msg[n - 1], rand).after
  }

  /** What character `i` of `msg` is written as. */
  function Emitted(full: Index, msg: string, rand: nat -> nat, i: nat): Emission
    requires IndexValid(full) && i < |msg|
  {
    Take(full, Run(full, msg, rand, i), msg[i], rand).emission
  }

  /** Character `i` of the message is written as a masking token when it is a
      space, as one of its own coordinates when the grid holds it, and as
      `Absent` otherwise. */
  lemma EmittedKinds(full: Index, msg: string, rand: nat -> nat, i: nat)
    requires IndexValid(full) && i < |msg|
    ensures var e := Emitted(full, msg, rand, i);
      && (msg[i] == ' ' ==> e.SpaceMask? && IsAsciiUpper(e.prefix) && 11 <= e.number <= 77)
      && (msg[i] != ' ' && msg[i] in full ==> e.Coordinate? && e.at in full[msg[i]])
      && (msg[i] != ' ' && msg[i] !in full ==> e == Absent)
  {
    TakeSpec(full, Run(full, msg, rand, i), msg[i], rand);
  }

  /** What every character of `msg` is written as, in order. */
  function Emissions(full: Index, msg: string, rand: nat -> nat): seq<Emission>
    requires IndexValid(full)
  {
    seq(|msg|, i requires 0 <= i < |msg| => Emitted(full, msg, rand, i))
  }

  /** The tokens of `es` written one after another. */
  function Concat(es: seq<Emission>): string {
    if |es| == 0 then "" else Concat(es[..|es| - 1]) + Token(es[|es| - 1])
  }

  /** The text written for the first `n` characters of `msg`. */
  function Ciphertext(full: Index, msg: string, rand: nat -> nat, n: nat): string
    requires IndexValid(full) && n <= |msg|
  {
    Concat(Emissions(full, msg, rand)[..n])
  }

  /** Encrypting one more character appends its token. */
  lemma CiphertextNext(full: Index, msg: string, rand: nat -> nat, n: nat)
    requires IndexValid(full) && n < |msg|
    ensures Ciphertext(full, msg, rand, n + 1) == Ciphertext(full, msg, rand, n) + Token(Emitted(full, msg, rand, n))
  {
    var es := Emissions(full, msg, rand);
    ConcatSnoc(es, n);
  }

  /** The tokens of the first `n + 1` emissions are those of the first `n`
      followed by the token of emission `n`. */
  lemma ConcatSnoc(es: seq<Emission>, n: nat)
    requires n < |es|
    ensures Concat(es[..n + 1]) == Concat(es[..n]) + Token(es[n])
  {
    assert es[..n + 1][..n] == es[..n];
  }

  /** `encrypt(message, matrix)` for the upper-cased message `msg`. */
  function Encrypted(matrix: Matrix, msg: string, rand: nat -> nat): string {
    PositionsValid(matrix);
    Ciphertext(PositionsOf(matrix), msg, rand, |msg|)
  }

  /** The body of the loop of lines 30-47: write character `ch`, updating
      `positions_pool` and the number of draws made. */
  method EncryptChar(full: Index, pool: Index, draws: nat, ch: char, rand: nat -> nat)
    returns (token: string, pool': Index, draws': nat)
    requires IndexValid(full) && PoolValid(full, pool)
    ensures var step := Take(full, State(pool, draws), ch, rand);
      token == Token(step.emission) && State(pool', draws') == step.after
  {
    if ch == ' ' {
      TakeSpace(full, State(pool, draws), ch, rand);
      var prefix := MaskLetter(rand(draws));
      var number := MaskNumber(rand(draws + 1));
      token, pool', draws' := [prefix] + Decimal(number), pool, draws + 2;
    } else if ch in pool {
      TakeSymbol(full, State(pool, draws), ch, rand);
      var list := pool[ch];
      if list == [] {
        list := full[ch];  // the pool has run dry: refill it from the full list
      }
      var co := list[rand(draws) % |list|];
      token := Decimal(co.row) + Decimal(co.col);
      pool' := pool[ch := RemoveFirst(list, co)];
      draws' := draws + 1;
    } else {
      TakeAbsent(full, State(pool, draws), ch, rand);
      token, pool', draws' := "XX", pool, draws;
    }
  }

  /** `encrypt(message, matrix)`, where `message` is already upper-cased. */
  method Encrypt(message: string, matrix: Matrix, rand: nat -> nat) returns (encrypted: string)
    ensures encrypted == Encrypted(matrix, message, rand)
  {
    encrypted := "";
    var full := IndexPositions(matrix);
    PositionsValid(matrix);
    var pool := full;
    var draws := 0;
    for i := 0 to |message|
      invariant State(pool, draws) == Run(full, message, rand, i)
      invariant encrypted == Ciphertext(full, message, rand, i)
    {
      var token;
      token, pool, draws := EncryptChar(full, pool, draws, message[i], rand);
      encrypted := encrypted + token;
      CiphertextNext(full, message, rand, i);
    }
  }

  // ---------------------------------------------------------------------------
  // Output length

  /** The number of times `x` occurs in `s`, counted left to right: the same
      number as `Count(s, x)` (`OccurrencesCount`), in the recursive form the
      proofs about prefixes of the message step through. */
  function Occurrences(s: string, x: char): nat {
    if |s| == 0 then 0 else Occurrences(s[..|s| - 1], x) + (if s[|s| - 1] == x then 1 else 0)
  }

  lemma {:induction false} OccurrencesCount(s: string, x: char)
    ensures Occurrences(s, x) == Count(s, x)
  {
    if |s| > 0 {
      OccurrencesCount(s[..|s| - 1], x);
      assert s == s[..|s| - 1] + [s[|s| - 1]];
    }
  }

  /** Every coordinate of the index is a single digit on each axis. */
  predicate SingleDigitCoords(full: Index) {
    forall ch, co :: ch in full && co in full[ch] ==> co.row < 10 && co.col < 10
  }

  /** A grid of at most 9 rows of at most 9 cells. */
  predicate SmallGrid(m: Matrix) {
    |m| <= 9 && forall r :: 0 <= r < |m| ==> |m[r]| <= 9
  }

  lemma SmallGridDigits(m: Matrix)
    requires SmallGrid(m)
    ensures IndexValid(PositionsOf(m)) && SingleDigitCoords(PositionsOf(m))
  {
    PositionsConsistent(m);
    forall ch, co | ch in PositionsOf(m) && co in PositionsOf(m)[ch] ensures co.row < 10 && co.col < 10 {
      assert InGrid(m, co);
      assert |m[co.row - 1]| <= 9;
    }
  }

  /** A space is written with 3 characters, everything else with 2. */
  lemma EmittedLength(full: Index, msg: string, rand: nat -> nat, i: nat)
    requires IndexValid(full) && SingleDigitCoords(full) && i < |msg|
    ensures |Token(Emitted(full, msg, rand, i))| == if msg[i] == ' ' then 3 else 2
  {
    var s := Run(full, msg, rand, i);
    var e := Emitted(full, msg, rand, i);
    TakeSpec(full, s, msg[i], rand);
    if msg[i] == ' ' {
      TwoDigitDecimal(e.number);
    } else if msg[i] in full {
      assert e.at in full[msg[i]];
    }
  }

  lemma {:induction false} CiphertextLength(full: Index, msg: string, rand: nat -> nat, n: nat)
    requires IndexValid(full) && SingleDigitCoords(full) && n <= |msg|
    ensures |Ciphertext(full, msg, rand, n)| == 2 * n + Occurrences(msg[..n], ' ')
  {
    if n > 0 {
      CiphertextLength(full, msg, rand, n - 1);
      CiphertextNext(full, msg, rand, n - 1);
      EmittedLength(full, msg, rand, n - 1);
      assert msg[..n][..n - 1] == msg[..n - 1];
    }
  }

  /** On a grid of at most 9 x 9 the ciphertext has two characters per
      character of the message plus one more per space. */
  lemma EncryptedLength(matrix: Matrix, msg: string, rand: nat -> nat)
    requires SmallGrid(matrix)
    ensures |Encrypted(matrix, msg, rand)| == 2 * |msg| + Count(msg, ' ')
  {
    OccurrencesCount(msg, ' ');
    SmallGridDigits(matrix);
    CiphertextLength(PositionsOf(matrix), msg, rand, |msg|);
    assert msg[..|msg|] == msg;
  }

  // ---------------------------------------------------------------------------
  // Cycles through a symbol's coordinates

  lemma DivMono(x: nat, y: nat, k: nat)
    requires k > 0 && x <= y
    ensures x / k <= y / k
  {
    var qx, qy := x / k, y / k;
    assert x == qx * k + x % k;
    assert y == qy * k + y % k;
    assert (qy + 1) * k == qy * k + k;
    if qx > qy {
      MulMono(qy + 1, qx, k);
      assert false;
    }
  }

  /** How counting one more occurrence moves through a cycle of length `k`. */
  lemma DivStep(c: nat, k: nat)
    requires k > 0 && c > 0
    ensures c % k != 0 ==> (c - 1) % k + 1 == c % k && (c - 1) / k == c / k
    ensures c % k == 0 ==> (c - 1) % k == k - 1 && (c - 1) / k + 1 == c / k
  {
    var q, r := (c - 1) / k, (c - 1) % k;
    assert c - 1 == q * k + r;
    if r + 1 < k {
      DivUnique(c, k, q, r + 1);
    } else {
      assert c == (q + 1) * k;
      DivUnique(c, k, q + 1, 0);
    }
  }

  /** How many times `ch` occurs before position `a` of `msg`: occurrence
      number `Rank(msg, ch, a)`, counting from 0, is the one at `a`. */
  function Rank(msg: string, ch: char, a: nat): nat
    requires a <= |msg|
  {
    Occurrences(msg[..a], ch)
  }

  lemma RankNext(msg: string, ch: char, a: nat)
    requires a < |msg|
    ensures Rank(msg, ch, a + 1) == Rank(msg, ch, a) + if msg[a] == ch then 1 else 0
  {
    assert msg[..a + 1][..a] == msg[..a];
  }

  /** An earlier occurrence has a smaller rank. */
  lemma {:induction false} RankGrows(msg: string, ch: char, a: nat, n: nat)
    requires a < n <= |msg| && msg[a] == ch
    ensures Rank(msg, ch, a) < Rank(msg, ch, n)
    decreases n
  {
    RankNext(msg, ch, n - 1);
    if a < n - 1 {
      RankGrows(msg, ch, a, n - 1);
    }
  }

  /** How many coordinates of the current cycle the `c` occurrences seen so far
      have used, for a symbol with `k` cells. */
  function Used(c: nat, k: nat): nat
    requires k > 0
  {
    if c == 0 then 0 else (c - 1) % k + 1
  }

  /** Occurrence `a` of `ch` was written with a coordinate of `ch` that is not
      in `pool`. */
  predicate SpentFrom(full: Index, msg: string, rand: nat -> nat, ch: char, a: nat, pool: seq<Coord>)
    requires IndexValid(full) && ch in full && a < |msg|
  {
    var e := Emitted(full, msg, rand, a);
    e.Coordinate? && e.at in full[ch] && e.at !in pool
  }

  /** After `n` characters, the pool of `ch` (a symbol with `k` cells) has
      lost one coordinate per occurrence of the current cycle, and each of
      those occurrences was written with a coordinate of `ch` no longer in the
      pool. Occurrence `c` belongs to cycle `c / k`. */
  predicate CycleInv(full: Index, msg: string, rand: nat -> nat, ch: char, n: nat)
    requires IndexValid(full) && ch in full && n <= |msg|
  {
    var k := |full[ch]|;
    var c := Rank(msg, ch, n);
    var pool := Run(full, msg, rand, n).pool[ch];
    && |pool| == k - Used(c, k)
    && forall a :: 0 <= a < n && msg[a] == ch && c > 0 && Rank(msg, ch, a) / k == (c - 1) / k ==>
         SpentFrom(full, msg, rand, ch, a, pool)
  }

  /** A character other than `ch` leaves the pool of `ch` alone. */
  lemma CycleStepOther(full: Index, msg: string, rand: nat -> nat, ch: char, m: nat)
    requires IndexValid(full) && ch in full && m < |msg| && msg[m] != ch
    requires CycleInv(full, msg, rand, ch, m)
    ensures CycleInv(full, msg, rand, ch, m + 1)
  {
    RankNext(msg, ch, m);
    TakeSpec(full, Run(full, msg, rand, m), msg[m], rand);
    var pool := Run(full, msg, rand, m).pool[ch];
    assert Run(full, msg, rand, m + 1).pool[ch] == pool;
  }

  /** What an occurrence of `ch` at position `m` does to the pool of `ch`. */
  lemma OccurrenceStep(full: Index, msg: string, rand: nat -> nat, ch: char, m: nat)
    requires IndexValid(full) && ch in full && ch != ' ' && m < |msg| && msg[m] == ch
    ensures var before := Run(full, msg, rand, m).pool;
      var after := Run(full, msg, rand, m + 1).pool[ch];
      var e := Emitted(full, msg, rand, m);
      && e.Coordinate? && e.at in full[ch] && e.at !in after
      && |after| == |Available(full, before, ch)| - 1
      && multiset(after) == multiset(Available(full, before, ch)) - multiset{e.at}
      && SpentFrom(full, msg, rand, ch, m, after)
  {
    TakeSpec(full, Run(full, msg, rand, m), ch, rand);
  }

  /** An occurrence of `ch` is written with a coordinate available to it. */
  lemma OccurrenceDraw(full: Index, msg: string, rand: nat -> nat, ch: char, m: nat)
    requires IndexValid(full) && ch in full && ch != ' ' && m < |msg| && msg[m] == ch
    ensures Emitted(full, msg, rand, m).Coordinate?
    ensures Emitted(full, msg, rand, m).at in Available(full, Run(full, msg, rand, m).pool, ch)
  {
    TakeSpec(full, Run(full, msg, rand, m), ch, rand);
  }

  /** Every earlier occurrence of `ch` has a smaller rank than the one at `m`. */
  lemma EarlierRanks(msg: string, ch: char, m: nat)
    requires m < |msg|
    ensures forall a :: 0 <= a < m && msg[a] == ch ==> Rank(msg, ch, a) < Rank(msg, ch, m)
  {
    forall a | 0 <= a < m && msg[a] == ch ensures Rank(msg, ch, a) < Rank(msg, ch, m) {
      RankGrows(msg, ch, a, m);
    }
  }

  /** Occurrence number 0 of `ch` has no occurrence of `ch` before it. */
  lemma NoEarlierOccurrence(msg: string, ch: char, m: nat)
    requires m < |msg| && Rank(msg, ch, m) == 0
    ensures forall a :: 0 <= a < m ==> msg[a] != ch
  {
    forall a | 0 <= a < m ensures msg[a] != ch {
      if msg[a] == ch {
        RankGrows(msg, ch, a, m);
        assert false;
      }
    }
  }

  /** The first occurrence of `ch` opens the first cycle. */
  lemma CycleStepFirst(full: Index, msg: string, rand: nat -> nat, ch: char, m: nat)
    requires IndexValid(full) && ch in full && ch != ' ' && m < |msg| && msg[m] == ch
    requires Rank(msg, ch, m) == 0 && |Run(full, msg, rand, m).pool[ch]| == |full[ch]|
    ensures CycleInv(full, msg, rand, ch, m + 1)
  {
    var k := |full[ch]|;
    RankNext(msg, ch, m);
    OccurrenceStep(full, msg, rand, ch, m);
    NoEarlierOccurrence(msg, ch, m);
    var pool := Run(full, msg, rand, m).pool[ch];
    assert |pool| > 0;
    assert Available(full, Run(full, msg, rand, m).pool, ch) == pool;
    assert Used(1, k) == 1;
  }

  /** An occurrence inside a cycle takes a coordinate still in the pool, so the
      coordinates spent earlier in the cycle stay spent. */
  lemma CycleStepWithin(full: Index, msg: string, rand: nat -> nat, ch: char, m: nat)
    requires IndexValid(full) && ch in full && ch != ' ' && m < |msg| && msg[m] == ch
    requires Rank(msg, ch, m) > 0 && Rank(msg, ch, m) % |full[ch]| != 0
    requires CycleInv(full, msg, rand, ch, m)
    ensures CycleInv(full, msg, rand, ch, m + 1)
  {
    var k := |full[ch]|;
    var c := Rank(msg, ch, m);
    RankNext(msg, ch, m);
    DivStep(c, k);
    OccurrenceStep(full, msg, rand, ch, m);
    var pool := Run(full, msg, rand, m).pool[ch];
    var after := Run(full, msg, rand, m + 1).pool[ch];
    assert Available(full, Run(full, msg, rand, m).pool, ch) == pool;
    forall a | 0 <= a < m && msg[a] == ch && Rank(msg, ch, a) / k == c / k
      ensures SpentFrom(full, msg, rand, ch, a, after)
    {
      assert SpentFrom(full, msg, rand, ch, a, pool);
      var e := Emitted(full, msg, rand, a).at;
      assert e !in multiset(pool);
    }
  }

  /** An occurrence that finds the pool empty refills it and opens a new
      cycle; earlier occurrences all belong to older cycles. */
  lemma CycleStepRefill(full: Index, msg: string, rand: nat -> nat, ch: char, m: nat)
    requires IndexValid(full) && ch in full && ch != ' ' && m < |msg| && msg[m] == ch
    requires Rank(msg, ch, m) > 0 && Rank(msg, ch, m) % |full[ch]| == 0
    requires CycleInv(full, msg, rand, ch, m)
    ensures CycleInv(full, msg, rand, ch, m + 1)
  {
    var k := |full[ch]|;
    var c := Rank(msg, ch, m);
    RankNext(msg, ch, m);
    DivStep(c, k);
    OccurrenceStep(full, msg, rand, ch, m);
    assert Available(full, Run(full, msg, rand, m).pool, ch) == full[ch];
    EarlierRanks(msg, ch, m);
    forall a | 0 <= a < m && msg[a] == ch ensures Rank(msg, ch, a) / k < c / k {
      DivMono(Rank(msg, ch, a), c - 1, k);
    }
  }

  /** `CycleInv` holds after every prefix of the message. */
  lemma {:induction false} PoolCycle(full: Index, msg: string, rand: nat -> nat, ch: char, n: nat)
    requires IndexValid(full) && ch in full && ch != ' ' && n <= |msg|
    ensures CycleInv(full, msg, rand, ch, n)
  {
    if n == 0 {
      assert msg[..0] == [];
    } else {
      PoolCycle(full, msg, rand, ch, n - 1);
      var c := Rank(msg, ch, n - 1);
      if msg[n - 1] != ch {
        CycleStepOther(full, msg, rand, ch, n - 1);
      } else if c == 0 {
        CycleStepFirst(full, msg, rand, ch, n - 1);
      } else if c % |full[ch]| != 0 {
        CycleStepWithin(full, msg, rand, ch, n - 1);
      } else {
        CycleStepRefill(full, msg, rand, ch, n - 1);
      }
    }
  }

  /** Within one cycle the occurrences of a symbol get pairwise distinct
      coordinates: occurrences `k * q` to `k * q + k - 1` of a symbol with `k`
      cells never repeat a coordinate. */
  lemma CycleDistinct(full: Index, msg: string, rand: nat -> nat, ch: char, a: nat, b: nat)
    requires IndexValid(full) && ch in full && ch != ' '
    requires a < b < |msg| && msg[a] == ch && msg[b] == ch
    requires Rank(msg, ch, a) / |full[ch]| == Rank(msg, ch, b) / |full[ch]|
    ensures Emitted(full, msg, rand, a).Coordinate? && Emitted(full, msg, rand, b).Coordinate?
    ensures Emitted(full, msg, rand, a).at != Emitted(full, msg, rand, b).at
  {
    var k := |full[ch]|;
    var c := Rank(msg, ch, b);
    var ra := Rank(msg, ch, a);
    RankGrows(msg, ch, a, b);
    DivStep(c, k);
    DivMono(ra, c - 1, k);
    assert c % k != 0;
    assert ra / k == (c - 1) / k;
    PoolCycle(full, msg, rand, ch, b);
    var pool := Run(full, msg, rand, b).pool[ch];
    assert |pool| == k - c % k;
    assert SpentFrom(full, msg, rand, ch, a, pool);
    OccurrenceDraw(full, msg, rand, ch, b);
    assert Available(full, Run(full, msg, rand, b).pool, ch) == pool;
  }

  /** The first `k` occurrences of a symbol with `k` cells are written with
      pairwise distinct coordinates. */
  lemma FirstCycleDistinct(full: Index, msg: string, rand: nat -> nat, ch: char, a: nat, b: nat)
    requires IndexValid(full) && ch in full && ch != ' '
    requires a < b < |msg| && msg[a] == ch && msg[b] == ch
    requires Rank(msg, ch, b) < |full[ch]|
    ensures Emitted(full, msg, rand, a).Coordinate? && Emitted(full, msg, rand, b).Coordinate?
    ensures Emitted(full, msg, rand, a).at != Emitted(full, msg, rand, b).at
  {
    var k := |full[ch]|;
    var ra, rb := Rank(msg, ch, a), Rank(msg, ch, b);
    RankGrows(msg, ch, a, b);
    DivUnique(ra, k, 0, ra);
    DivUnique(rb, k, 0, rb);
    CycleDistinct(full, msg, rand, ch, a, b);
  }

  /** Once a symbol's `k` coordinates are used up, its next occurrence finds
      the pool empty and starts a fresh cycle from the full list rather than
      failing. */
  lemma CycleRestart(full: Index, msg: string, rand: nat -> nat, ch: char, b: nat)
    requires IndexValid(full) && ch in full && ch != ' '
    requires b < |msg| && msg[b] == ch
    requires Rank(msg, ch, b) > 0 && Rank(msg, ch, b) % |full[ch]| == 0
    ensures Run(full, msg, rand, b).pool[ch] == []
    ensures Emitted(full, msg, rand, b).Coordinate? && Emitted(full, msg, rand, b).at in full[ch]
  {
    PoolCycle(full, msg, rand, ch, b);
    DivStep(Rank(msg, ch, b), |full[ch]|);
  }
}
