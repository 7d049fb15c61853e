/** `generate_matrix`: a key-seeded square grid of the 27 symbols A-Z and Ç.
    The symbol list is doubled until it fills the grid, shuffled in place by
    the generator seeded with the key, and cut into rows. */
module Grid {
  import opened Text

  /** `string.ascii_uppercase + "Ç"`. */
  const Alphabet: string := AsciiUppercase + "\U{C7}"

  /** A grid as a list of rows of one-character cells. */
  type Matrix = seq<seq<char>>

  /** The symbols of the alphabet are pairwise distinct. */
  lemma AlphabetDistinct()
    ensures |Alphabet| == 27
    ensures forall i, j :: 0 <= i < j < |Alphabet| ==> Alphabet[i] != Alphabet[j]
  {
  }

  // ---------------------------------------------------------------------------
  // Doubling: `while len(alphabet) < size * size: alphabet += alphabet`

  /** The list the doubling loop ends with, starting from `s`. */
  function Doubled(s: string, need: nat): (d: string)
    requires |s| > 0
    ensures |d| >= need && |d| >= |s|
    ensures forall i :: 0 <= i < |d| ==> d[i] in s
    decreases need - |s|
  {
    if |s| >= need then s else Doubled(s + s, need)
  }

  /** The number of copies of one symbol in a list. */
  function Count(s: string, x: char): nat {
    multiset(s)[x]
  }

  /** Every symbol occurs in the doubled alphabet equally often: one copy for
      each 27 cells of the list, and nothing outside the alphabet occurs. */
  lemma DoubledAlphabetCounts(need: nat)
    ensures |Doubled(Alphabet, need)| % 27 == 0
    ensures forall x :: Count(Doubled(Alphabet, need), x) ==
                        if x in Alphabet then |Doubled(Alphabet, need)| / 27 else 0
  {
    AlphabetDistinct();
    DoubledDistinctCounts(Alphabet, need);
  }

  /** Doubling a list without repetitions gives every member the same number
      of copies, one for each `|al|` cells. */
  lemma DoubledDistinctCounts(al: string, need: nat)
    requires |al| > 0 && forall i, j :: 0 <= i < j < |al| ==> al[i] != al[j]
    ensures |Doubled(al, need)| % |al| == 0
    ensures forall x :: Count(Doubled(al, need), x) ==
                        if x in al then |Doubled(al, need)| / |al| else 0
  {
    DistinctCounts(al);
    DoubledCounts(al, al, need, 1);
  }

  /** In a list without repetitions each member occurs once. */
  lemma {:induction false} DistinctCounts(s: string)
    requires forall i, j :: 0 <= i < j < |s| ==> s[i] != s[j]
    ensures forall x :: Count(s, x) == if x in s then 1 else 0
  {
    if |s| > 0 {
      var t := s[..|s| - 1];
      DistinctCounts(t);
      assert s == t + [s[|s| - 1]];
      assert s[|s| - 1] !in t;
      forall x ensures Count(s, x) == if x in s then 1 else 0 {
        assert x in s <==> x in t || x == s[|s| - 1];
      }
    }
  }

  /** Doubling a list in which every member of `al` has `copies` copies keeps
      all of them equally frequent. */
  lemma {:induction false} DoubledCounts(al: string, s: string, need: nat, copies: nat)
    requires |al| > 0 && copies > 0 && |s| == |al| * copies
    requires forall x :: Count(s, x) == if x in al then copies else 0
    ensures |Doubled(s, need)| % |al| == 0
    ensures forall x :: Count(Doubled(s, need), x) ==
                        if x in al then |Doubled(s, need)| / |al| else 0
    decreases need - |s|
  {
    if |s| < need {
      assert forall x :: Count(s + s, x) == 2 * Count(s, x);
      assert |s + s| == |al| * (2 * copies);
      DoubledCounts(al, s + s, need, 2 * copies);
    } else {
      DivUnique(|s|, |al|, copies, 0);
    }
  }

  /** For the default 7 x 7 grid the alphabet is doubled exactly once. */
  lemma DoubledForSeven()
    ensures Doubled(Alphabet, 49) == Alphabet + Alphabet
  {
    AlphabetDistinct();
  }

  // ---------------------------------------------------------------------------
  // Shuffling: `random.shuffle(alphabet)`
  //
  // Python shuffles a list in place by Fisher-Yates: for i from len - 1 down to
  // 1 it draws j = randbelow(i + 1) and swaps positions i and j.  `draw(t)` is
  // the generator's t-th draw; randbelow(n) is modelled as draw(t) % n, so every
  // j in 0 .. i is possible.

  /** The list with positions `i` and `j` exchanged. */
  function Swap(s: string, i: nat, j: nat): string
    requires i < |s| && j < |s|
  {
    s[i := s[j]][j := s[i]]
  }

  /** The Fisher-Yates steps for positions `i` down to 1, the first of which
      uses draw number `t`. */
  function ShuffleFrom(s: string, i: nat, t: nat, draw: nat -> nat): (r: string)
    requires i < |s|
    ensures |r| == |s|
    decreases i
  {
    if i == 0 then s else ShuffleFrom(Swap(s, i, draw(t) % (i + 1)), i - 1, t + 1, draw)
  }

  /** The list `random.shuffle` leaves behind when its draws are `draw`. */
  function Shuffled(s: string, draw: nat -> nat): string {
    if |s| == 0 then s else ShuffleFrom(s, |s| - 1, 0, draw)
  }

  /** Exchanging two positions keeps the same symbols. */
  lemma SwapPermutes(s: string, i: nat, j: nat)
    requires i < |s| && j < |s|
    ensures |Swap(s, i, j)| == |s|
    ensures multiset(Swap(s, i, j)) == multiset(s)
  {
    var u := s[i := s[j]];
    assert multiset(u) == multiset(s) - multiset{s[i]} + multiset{s[j]};
    assert multiset(u[j := s[i]]) == multiset(u) - multiset{u[j]} + multiset{s[i]};
  }

  /** Whatever the draws, shuffling yields a permutation of its input. */
  lemma {:induction false} ShuffledPermutes(s: string, draw: nat -> nat)
    ensures |Shuffled(s, draw)| == |s|
    ensures multiset(Shuffled(s, draw)) == multiset(s)
  {
    if |s| > 0 {
      ShuffleFromPermutes(s, |s| - 1, 0, draw);
    }
  }

  lemma {:induction false} ShuffleFromPermutes(s: string, i: nat, t: nat, draw: nat -> nat)
    requires i < |s|
    ensures multiset(ShuffleFrom(s, i, t, draw)) == multiset(s)
    decreases i
  {
    if i > 0 {
      var j := draw(t) % (i + 1);
      SwapPermutes(s, i, j);
      ShuffleFromPermutes(Swap(s, i, j), i - 1, t + 1, draw);
    }
  }

  /** `random.shuffle(alphabet)` on the list held in `a`. */
  method Shuffle(a: array<char>, draw: nat -> nat)
    modifies a
    ensures a[..] == Shuffled(old(a[..]), draw)
  {
    if a.Length == 0 {
      return;
    }
    var i := a.Length - 1;
    while i > 0
      invariant 0 <= i < a.Length
      invariant ShuffleFrom(a[..], i, a.Length - 1 - i, draw) == Shuffled(old(a[..]), draw)
    {
      var j := draw(a.Length - 1 - i) % (i + 1);
      var held := a[i];
      a[i] := a[j];
      a[j] := held;
      i := i - 1;
    }
  }

  // ---------------------------------------------------------------------------
  // Slicing: `[alphabet[i * size:(i + 1) * size] for i in range(size)]`

  lemma RowBounds(r: nat, size: nat)
    requires r < size
    ensures r * size + size == (r + 1) * size <= size * size
  {
    assert (r + 1) * size <= size * size by {
      assert r + 1 <= size;
    }
  }

  /** `s[start:start + len]`. */
  function Slice(s: string, start: nat, len: nat): (r: string)
    requires start + len <= |s|
    ensures |r| == len
  {
    s[start .. start + len]
  }

  /** The `size` consecutive slices of `size` symbols at the front of `s`. */
  function Rows(s: string, size: nat): (m: Matrix)
    requires size * size <= |s|
    ensures |m| == size
    ensures forall r :: 0 <= r < size ==> |m[r]| == size
  {
    seq(size, r requires 0 <= r < size =>
      RowBounds(r, size);
      Slice(s, r * size, size))
  }

  /** Cell `c` of row `r` is symbol `r * size + c` of the list. */
  lemma RowsCell(s: string, size: nat, r: nat, c: nat)
    requires size * size <= |s| && r < size && c < size
    ensures r * size + c < size * size
    ensures Rows(s, size)[r][c] == s[r * size + c]
  {
    RowBounds(r, size);
  }

  /** The grid `generate_matrix` returns for a grid side `size` when the seeded
      generator's draws are `draw`. */
  function GridOf(size: nat, draw: nat -> nat): Matrix {
    var shuffled := Shuffled(Doubled(Alphabet, size * size), draw);
    ShuffledPermutes(Doubled(Alphabet, size * size), draw);
    Rows(shuffled, size)
  }

  /** `generate_matrix(key, size)`. `seeded(key)` stands for the draws of
      Python's generator after `random.seed(key)`, so the grid is a function of
      the key and the side. */
  method GenerateMatrix(key: string, size: nat, seeded: string -> nat -> nat) returns (matrix: Matrix)
    ensures matrix == GridOf(size, seeded(key))
    ensures |matrix| == size && forall r :: 0 <= r < size ==> |matrix[r]| == size
  {
    var alphabet := Alphabet;
    while |alphabet| < size * size
      invariant |alphabet| > 0
      invariant Doubled(alphabet, size * size) == Doubled(Alphabet, size * size)
      decreases size * size - |alphabet|
    {
      alphabet := alphabet + alphabet;
    }
    var a := new char[|alphabet|](i requires 0 <= i < |alphabet| => alphabet[i]);
    assert a[..] == alphabet;
    Shuffle(a, seeded(key));
    ShuffledPermutes(alphabet, seeded(key));
    matrix := Rows(a[..], size);
  }

  // ---------------------------------------------------------------------------
  // What the grid holds

  /** The cells of a grid in row-major order. */
  function Flatten(m: Matrix): string {
    if |m| == 0 then [] else Flatten(m[..|m| - 1]) + m[|m| - 1]
  }

  /** Reading the rows of `Rows(s, size)` one after another gives back the
      first `size * size` symbols of `s`. */
  lemma {:induction false} FlattenRows(s: string, size: nat, k: nat)
    requires size * size <= |s| && k <= size
    ensures k * size <= size * size
    ensures Flatten(Rows(s, size)[..k]) == s[..k * size]
  {
    var m := Rows(s, size);
    if k == 0 {
      assert m[..0] == [];
    } else {
      var lo, hi := (k - 1) * size, k * size;
      FlattenRows(s, size, k - 1);
      RowBounds(k - 1, size);
      FlattenSnoc(m, k);
      RowIs(s, size, k - 1);
      assert s[..hi] == s[..lo] + s[lo .. hi];
    }
  }

  /** Flattening one more row appends it. */
  lemma FlattenSnoc(m: Matrix, k: nat)
    requires 0 < k <= |m|
    ensures Flatten(m[..k]) == Flatten(m[..k - 1]) + m[k - 1]
  {
    assert m[..k][..k - 1] == m[..k - 1];
  }

  /** Row `r` of the grid is the `r`-th run of `size` symbols of the list. */
  lemma RowIs(s: string, size: nat, r: nat)
    requires size * size <= |s| && r < size
    ensures r * size + size <= size * size
    ensures Rows(s, size)[r] == s[r * size .. r * size + size]
  {
    RowBounds(r, size);
  }


  /** Read row by row, the grid is the front `size * size` symbols of the
      shuffled list. */
  lemma GridIsPrefix(size: nat, draw: nat -> nat)
    ensures var sh := Shuffled(Doubled(Alphabet, size * size), draw);
      size * size <= |sh| && Flatten(GridOf(size, draw)) == sh[..size * size]
  {
    var sh := Shuffled(Doubled(Alphabet, size * size), draw);
    ShuffledPermutes(Doubled(Alphabet, size * size), draw);
    FlattenRows(sh, size, size);
    assert GridOf(size, draw)[..size] == GridOf(size, draw);
  }

  /** The front of a list holds no more copies of a symbol than the list. */
  lemma PrefixSubMultiset(s: string, n: nat)
    requires n <= |s|
    ensures multiset(s[..n]) <= multiset(s)
  {
    assert s == s[..n] + s[n..];
  }

  /** The cells of the grid are the first `size * size` symbols of a
      permutation of the doubled alphabet, so no symbol fills more cells than it
      has copies in the doubled list, and nothing outside the alphabet does. */
  lemma GridCounts(size: nat, draw: nat -> nat)
    ensures |Flatten(GridOf(size, draw))| == size * size
    ensures multiset(Flatten(GridOf(size, draw))) <= multiset(Doubled(Alphabet, size * size))
    ensures forall x :: Count(Flatten(GridOf(size, draw)), x) <=
                        if x in Alphabet then |Doubled(Alphabet, size * size)| / 27 else 0
  {
    var d := Doubled(Alphabet, size * size);
    var sh := Shuffled(d, draw);
    var n := size * size;
    ShuffledPermutes(d, draw);
    GridIsPrefix(size, draw);
    PrefixSubMultiset(sh, n);
    DoubledAlphabetCounts(n);
  }

  /** Every cell of a grid is among its flattened cells. */
  lemma {:induction false} CellInFlatten(m: Matrix, r: nat, c: nat)
    requires r < |m| && c < |m[r]|
    ensures m[r][c] in multiset(Flatten(m))
  {
    var last := |m| - 1;
    assert Flatten(m) == Flatten(m[..last]) + m[last];
    if r < last {
      CellInFlatten(m[..last], r, c);
    } else {
      assert m[r][c] in m[last];
    }
  }

  /** Every cell of the grid holds one of the 27 symbols. */
  lemma GridCellsInAlphabet(size: nat, draw: nat -> nat)
    ensures forall r, c :: 0 <= r < size && 0 <= c < size ==> GridOf(size, draw)[r][c] in Alphabet
  {
    var m := GridOf(size, draw);
    GridCounts(size, draw);
    forall r, c | 0 <= r < size && 0 <= c < size ensures m[r][c] in Alphabet {
      CellInFlatten(m, r, c);
      assert Count(Flatten(m), m[r][c]) > 0;
    }
  }

  /** The default 7 x 7 grid holds every symbol at most twice: 49 of the 54
      copies of the doubled alphabet are kept and 5 are dropped. */
  lemma SevenBySevenAtMostTwice(draw: nat -> nat)
    ensures forall x :: Count(Flatten(GridOf(7, draw)), x) <= 2
  {
    DoubledForSeven();
    AlphabetDistinct();
    GridCounts(7, draw);
  }

  // ---------------------------------------------------------------------------
  // Coverage is not guaranteed

  /** Shuffle steps whose draws each pick the position itself leave the list
      as it is. */
  lemma {:induction false} ShuffleFromIdle(s: string, i: nat, t: nat, draw: nat -> nat)
    requires i < |s|
    requires forall u :: t <= u < t + i ==> draw(u) % (t + i - u + 1) == t + i - u
    ensures ShuffleFrom(s, i, t, draw) == s
    decreases i
  {
    if i > 0 {
      assert draw(t) % (i + 1) == i;
      assert Swap(s, i, i) == s;
      ShuffleFromIdle(s, i - 1, t + 1, draw);
    }
  }

  /** When every draw after the first two picks the position itself, the
      shuffle comes down to its first two exchanges. */
  lemma ShuffleFirstTwo(s: string, draw: nat -> nat)
    requires |s| >= 3
    requires forall u :: 2 <= u < |s| - 1 ==> draw(u) % (|s| - u) == |s| - 1 - u
    ensures Shuffled(s, draw) == Swap(Swap(s, |s| - 1, draw(0) % |s|), |s| - 2, draw(1) % (|s| - 1))
  {
    var n := |s|;
    var s1 := Swap(s, n - 1, draw(0) % n);
    var s2 := Swap(s1, n - 2, draw(1) % (n - 1));
    assert Shuffled(s, draw) == ShuffleFrom(s1, n - 2, 1, draw);
    assert ShuffleFrom(s1, n - 2, 1, draw) == ShuffleFrom(s2, n - 3, 2, draw);
    forall u | 2 <= u < 2 + (n - 3) ensures draw(u) % (2 + (n - 3) - u + 1) == 2 + (n - 3) - u {
      assert 2 + (n - 3) - u + 1 == n - u;
    }
    ShuffleFromIdle(s2, n - 3, 2, draw);
  }

  /** A shuffle whose first two exchanges move the two copies of `A` (places 0
      and 27 of the doubled alphabet) to the last two places, and whose other
      exchanges change nothing, leaves `A` out of the 7 x 7 grid. */
  lemma SevenBySevenWithoutA(draw: nat -> nat)
    requires draw(0) % 54 == 0 && draw(1) % 53 == 27
    requires forall u :: 2 <= u < 53 ==> draw(u) % (54 - u) == 53 - u
    ensures 'A' !in Flatten(GridOf(7, draw))
  {
    DoubledForSeven();
    AlphabetDistinct();
    var d := Doubled(Alphabet, 49);
    ShuffleFirstTwo(d, draw);
    GridIsPrefix(7, draw);
    BothCopiesDropped(Alphabet);
    assert Alphabet[0] == 'A';
  }

  /** Moving both copies of the first symbol of a doubled 27-symbol list to
      its last two places leaves that symbol out of the first 49. */
  lemma BothCopiesDropped(al: string)
    requires |al| == 27 && forall i, j :: 0 <= i < j < |al| ==> al[i] != al[j]
    ensures al[0] !in Swap(Swap(al + al, 53, 0), 52, 27)[..49]
  {
    var s2 := Swap(Swap(al + al, 53, 0), 52, 27);
    forall k | 0 <= k < 49 ensures s2[k] != al[0] {
      if k == 0 {
        assert s2[k] == al[26];
      } else if k == 27 {
        assert s2[k] == al[25];
      } else if k < 27 {
        assert s2[k] == al[k];
      } else {
        assert s2[k] == al[k - 27];
      }
    }
  }

  /** Draws under which `random.shuffle` moves both copies of `A` to the last
      two places of the doubled alphabet and leaves everything else alone. */
  function DropBothA(t: nat): nat {
    if t == 0 then 0 else if t == 1 then 27 else if t <= 53 then 53 - t else 0
  }

  /** The default 7 x 7 grid need not hold every symbol: for some draws both
      copies of `A` are among the 5 dropped, so a message with an `A` is
      written with `"XX"`. */
  lemma SevenBySevenMayLackSymbol()
    ensures exists draw: nat -> nat :: 'A' !in Flatten(GridOf(7, draw))
  {
    DropBothADraws();
    SevenBySevenWithoutA(DropBothA);
  }

  /** The draws `DropBothA` makes: the first swap sends one `A` to the end,
      the second sends the other `A` next to it, and every later swap leaves
      the list as it is. */
  lemma DropBothADraws()
    ensures DropBothA(0) % 54 == 0 && DropBothA(1) % 53 == 27
    ensures forall u :: 2 <= u < 53 ==> DropBothA(u) % (54 - u) == 53 - u
  {
    forall u | 2 <= u < 53 ensures DropBothA(u) % (54 - u) == 53 - u {
      DivUnique(DropBothA(u), 54 - u, 0, 53 - u);
    }
  }
}
