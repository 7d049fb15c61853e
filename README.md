# CryptoMatrix in Dafny

CryptoMatrix is a toy homophonic cipher. The key seeds Python's random
generator. That generator fills a square grid, 7 x 7 by default, with a
shuffled doubled copy of the 27 symbols `A`-`Z` and `Ç`.

`encrypt` upper-cases the message and writes each character as follows:

- A symbol of the grid becomes the 1-based `row col` of one of its cells. The
  cell is picked at random from a per-symbol pool. The pool loses the cell it
  gives out and is refilled from the full list of the symbol's cells once it is
  empty.
- A space becomes a random capital letter followed by a random number 11..77.
- Any other character becomes `XX`.

`decrypt` scans the text. It reads a capital letter followed by two digits as a
space, and anything else as a two-digit coordinate.

This project models `generate_matrix`, `encrypt` (the position index, the pool
and the token loop) and `decrypt` from `cryptoMatrix.py`, and proves what they
guarantee.

Modules:

- `Text` (text.dfy) holds the Python primitives the cipher uses:
  - `str()` of a natural number and `int()` of a digit;
  - list indexing with negative indices;
  - the `ValueError` and `IndexError` exceptions, returned as `Err` values.
- `Grid` (grid.dfy) models `generate_matrix`:
  - the doubling loop;
  - `random.shuffle` as Python's Fisher-Yates, in place on an array;
  - the row slicing.
- `Positions` (positions.dfy) models the nested loops that build
  `positions_full`.
- `Encryption` (encryption.dfy) models one character as a step function `Take`
  and the whole message as the fold `Run`. The methods `EncryptChar` and
  `Encrypt` are the loop, proved against those functions.
- `Decryption` (decryption.dfy) models the `decrypt` loop, proved against the
  recursive function `Decrypted`.
- `RoundTrip` (roundtrip.dfy) proves what decrypting an encryption gives.

Randomness is a parameter. `rand(t)`, or `draw(t)` in the grid, is the t-th
draw of the generator. By the convention of this model every random choice
consumes one draw, and a choice among `n` options takes option
`rand(t) % n`. Every option is then possible, and every property is proved for
all draw functions, so it holds whatever the generator produces. The key enters
`GenerateMatrix` through `seeded(key)`, which stands for the draws after
`random.seed(key)`.

## Model

| member | source | states |
|---|---|---|
| Grid.Doubled | cryptoMatrix.py:7-8 | the doubling loop ends with a list at least `size * size` long, no shorter than the alphabet, whose every symbol comes from the alphabet |
| Grid.Count | cryptoMatrix.py:7-10 | definition: the number of copies of a symbol in a list, as its multiplicity in the list's multiset |
| Grid.Shuffled | cryptoMatrix.py:9 | definition: `random.shuffle` of the list, the Fisher-Yates steps from the last position down to 1 with the first draw first; `ShuffledPermutes` states what it keeps |
| Grid.ShuffleFrom | cryptoMatrix.py:9 | the Fisher-Yates steps from position `i` down to 1, each swapping position `i` with a drawn position `0..i`, keep the length |
| Grid.Rows | cryptoMatrix.py:10 | the row slicing gives `size` rows of `size` symbols each |
| Grid.RowsCell | cryptoMatrix.py:10 | cell `c` of row `r` is symbol `r * size + c` of the shuffled list |
| Grid.GridOf | cryptoMatrix.py:4-10 | definition: the rows of the shuffled doubled alphabet; `GridIsPrefix`, `GridCounts` and `GridCellsInAlphabet` state what it holds |
| Grid.GenerateMatrix | cryptoMatrix.py:4-11 | the grid for key `key` is `GridOf(size, seeded(key))`, with `size` rows of `size` cells each |
| Grid.Shuffle | cryptoMatrix.py:9 | `random.shuffle` in place: the array ends up as the Fisher-Yates result `Shuffled(old contents, draw)` |
| Grid.ShuffledPermutes | cryptoMatrix.py:9 | whatever the draws, shuffling keeps the length and the multiset of symbols |
| Grid.DoubledAlphabetCounts | cryptoMatrix.py:5-8 | after doubling, the list length is a multiple of 27; every alphabet symbol has length/27 copies and nothing else occurs |
| Grid.DoubledForSeven | cryptoMatrix.py:7-8 | for the default size 7 the alphabet is doubled exactly once, to 54 symbols |
| Grid.GridIsPrefix | cryptoMatrix.py:9-10 | read row by row, the grid is exactly the first `size * size` symbols of the shuffled list |
| Grid.GridCounts | cryptoMatrix.py:5-10 | the grid has `size * size` cells; its multiset is contained in the doubled alphabet; a symbol fills at most length/27 cells and a non-alphabet character none |
| Grid.GridCellsInAlphabet | cryptoMatrix.py:5-10 | every cell holds one of the 27 symbols |
| Grid.SevenBySevenAtMostTwice | cryptoMatrix.py:4-10 | in the default 7 x 7 grid every symbol fills at most two cells |
| Grid.SevenBySevenWithoutA | cryptoMatrix.py:7-10 | draws that move both copies of `A` to the last two places of the 54-symbol list give a 7 x 7 grid without `A` |
| Grid.SevenBySevenMayLackSymbol | cryptoMatrix.py:4-10 | some draws give a 7 x 7 grid that lacks a symbol, so a grid is not guaranteed to hold every symbol |
| Positions.Insert | cryptoMatrix.py:23-25 | definition: the inner loop body, appending a cell's coordinate to its symbol's list and creating an empty list first on the symbol's first appearance |
| Positions.IndexOf | cryptoMatrix.py:21-25 | definition: `Insert` applied to the cells in visiting order, starting from `{}`; `IndexOfKeys` and `IndexOfLists` state what it holds |
| Positions.PositionsOf | cryptoMatrix.py:20-25 | definition: `positions_full`, the index of the grid's cells visited row by row, each row left to right with 1-based coordinates; `PositionsConsistent` states what it holds |
| Positions.IndexOfKeys | cryptoMatrix.py:21-25 | after the loops, the keys of the index are exactly the symbols of the visited cells |
| Positions.IndexOfLists | cryptoMatrix.py:21-25 | when the visited coordinates are distinct, each symbol's list holds exactly the coordinates of the visited cells with that symbol, none twice, and no list is empty |
| Positions.IndexPositions | cryptoMatrix.py:20-25 | the nested loops build `PositionsOf(matrix)`: the cells are visited row by row and each coordinate is appended to its symbol's list |
| Positions.PositionsConsistent | cryptoMatrix.py:20-25 | every listed coordinate is in the grid and holds its key; every cell is listed under its own symbol and no other; lists are non-empty without repeats; the keys are exactly the symbols in the grid |
| Positions.PositionsValid | cryptoMatrix.py:20-25 | no list of the index is empty or repeats a coordinate |
| Encryption.RemoveFirst | cryptoMatrix.py:44 | `list.remove(x)` is one shorter and loses exactly one copy of `x` |
| Encryption.FirstIndex | cryptoMatrix.py:44 | the position of the first occurrence of `x`: it holds `x` and no earlier position does |
| Encryption.RemoveFirstSplit | cryptoMatrix.py:44 | `list.remove(x)` takes out exactly the first occurrence of `x` and keeps everything before and after it in order |
| Encryption.RemoveFirstNoDup | cryptoMatrix.py:44 | removing from a repeat-free list leaves a repeat-free list that no longer holds `x` |
| Encryption.Available | cryptoMatrix.py:39-40 | definition: the list a coordinate is drawn from, the symbol's pool or a fresh copy of its full list when the pool is empty |
| Encryption.MaskLetter | cryptoMatrix.py:33 | the space prefix is an ASCII capital letter |
| Encryption.MaskNumber | cryptoMatrix.py:34 | the space number is between 11 and 77 |
| Encryption.Take | cryptoMatrix.py:31-47 | one character keeps the pool valid: same keys as the index, no repeats, only the symbol's own coordinates |
| Encryption.TakeSpec | cryptoMatrix.py:31-47 | a space gives a capital letter and 11..77 and leaves the pool alone; a character outside the grid gives `XX` and leaves the pool alone; a symbol gives a coordinate from its pool, or from its full list when the pool is empty; that coordinate leaves the pool, exactly one copy is removed, and other symbols' pools do not change |
| Encryption.Token | cryptoMatrix.py:33-47 | definition: a masking token is its letter followed by `str()` of its number, a coordinate is `str(row)` followed by `str(col)`, a missing symbol is `XX`; `EmittedLength` and `DecryptSpaceToken`/`DecryptCellToken` state how it reads |
| Encryption.Run | cryptoMatrix.py:28-47 | the pool starts as a copy of the index and stays valid after every prefix of the message |
| Encryption.EncryptChar | cryptoMatrix.py:31-47 | the loop body writes the token of `Take`'s emission and moves to `Take`'s next state |
| Encryption.Encrypt | cryptoMatrix.py:17-48 | `encrypt` returns `Encrypted(matrix, message, rand)`: the tokens of the characters in order |
| Encryption.Emitted | cryptoMatrix.py:30-47 | definition: what character `i` is written as, `Take` applied in the state after the characters before it; `EmittedKinds` states which kind it is |
| Encryption.Emissions | cryptoMatrix.py:30-47 | definition: what each character of the message is written as, in order |
| Encryption.Concat | cryptoMatrix.py:35-47 | definition: the tokens of a list of emissions written one after another, as `encrypted +=` builds them |
| Encryption.Ciphertext | cryptoMatrix.py:30-47 | definition: the text written for the first `n` characters; `CiphertextNext` states how it grows |
| Encryption.Encrypted | cryptoMatrix.py:17-48 | definition: `encrypt(message, matrix)`, the text written for the whole message over the grid's `positions_full`; `Encrypt` returns it and `RoundTrip` states what decrypting it gives |
| Encryption.EmittedKinds | cryptoMatrix.py:31-47 | character `i` is a masking token if it is a space, one of its own coordinates if the grid holds it, and `XX` otherwise |
| Encryption.CiphertextNext | cryptoMatrix.py:30-47 | each character appends its token to the text written so far |
| Encryption.EmittedLength | cryptoMatrix.py:31-47 | with single-digit coordinates a space is written with 3 characters and everything else with 2 |
| Encryption.OccurrencesCount | cryptoMatrix.py:31 | counting a character left to right gives its multiplicity in the message, so the space count in `EncryptedLength` is `Count(msg, ' ')` |
| Encryption.EncryptedLength | cryptoMatrix.py:30-47 | on a grid of at most 9 x 9 the ciphertext length is twice the message length plus the number of spaces |
| Encryption.PoolCycle | cryptoMatrix.py:39-44 | after any prefix, a symbol's pool has lost one coordinate per occurrence of its current cycle, and each of those occurrences used a coordinate no longer in the pool |
| Encryption.CycleDistinct | cryptoMatrix.py:39-44 | two occurrences of a symbol with `k` cells whose ranks lie in the same block of `k` get different coordinates |
| Encryption.FirstCycleDistinct | cryptoMatrix.py:39-44 | the first `k` occurrences of a symbol with `k` cells get pairwise different coordinates |
| Encryption.CycleRestart | cryptoMatrix.py:39-41 | occurrence number `k`, `2k`, ... finds the pool empty and still gets one of the symbol's coordinates, from the refilled list |
| Decryption.Prepend | cryptoMatrix.py:57-64 | appending to a result keeps success and failure; on success the prefix comes first and the rest after |
| Decryption.IsSpaceToken | cryptoMatrix.py:56 | definition: the test of line 56, an ASCII capital letter followed by at least two more characters that are both digits |
| Decryption.CellToken | cryptoMatrix.py:61-64 | a coordinate token succeeds only on two digits and then yields a cell of the grid; a non-digit first character raises `ValueError` |
| Decryption.Decrypted | cryptoMatrix.py:50-66 | definition: the result of `decrypt`, reading a space token as a space and 3 characters, otherwise a coordinate token as its cell and 2 characters, and passing on the first exception; `DecryptedSymbols` and `RoundTrip` state what it gives |
| Decryption.Decrypt | cryptoMatrix.py:50-66 | the scan returns `Decrypted(text, matrix)`: it advances by 3 over a space token and by 2 over a coordinate, and stops at the first exception |
| Decryption.DecryptSpaceToken | cryptoMatrix.py:56-58 | a capital letter followed by a number 11..77 reads back as a space |
| Decryption.DecryptCellToken | cryptoMatrix.py:60-65 | the token of a cell with single-digit row and column reads back as the symbol in that cell |
| Decryption.DecryptAbsentToken | cryptoMatrix.py:60-62 | `XX` makes `decrypt` raise `ValueError` at `int('X')` |
| Decryption.DecryptedSymbols | cryptoMatrix.py:50-66 | whatever the input, a successful decryption contains only spaces and symbols of the grid |
| RoundTrip.PositionsReadable | cryptoMatrix.py:20-25 | on a grid of at most 9 x 9 every listed coordinate is in the grid, holds its key and has single-digit row and column |
| RoundTrip.ConcatDecrypts | cryptoMatrix.py:50-66 | tokens that each read back as a character, followed by any text, decrypt to those characters followed by what that text decrypts to |
| RoundTrip.EmissionsRead | cryptoMatrix.py:30-47 | every space or grid symbol is written as a token that reads back as itself; every other character is written as `XX` |
| RoundTrip.ConcatFails | cryptoMatrix.py:53-62 | if every token before the first `XX` reads back, decryption raises `ValueError` |
| RoundTrip.RoundTrip | cryptoMatrix.py:17-66 | on a grid of at most 9 x 9, decrypting the encryption gives the message back exactly when every character is a space or a grid symbol, and raises `ValueError` otherwise |
| RoundTrip.GeneratedRoundTrip | cryptoMatrix.py:4-66 | the same holds for every grid `generate_matrix` builds with `size <= 9`, whatever the key |
| Text.DigitValue | cryptoMatrix.py:62-63 | `int()` of an ASCII digit is a value below 10 |
| Text.DigitChar | cryptoMatrix.py:62-63 | the digit written for `d < 10` is an ASCII digit that `int()` reads back as `d` |
| Text.Decimal | cryptoMatrix.py:42 | `str(n)` is a non-empty string of ASCII digits, a single digit exactly when `n < 10` |
| Text.TwoDigitDecimal | cryptoMatrix.py:34 | a number from 10 to 99, such as the space number, is written as its tens digit followed by its units digit |
| Text.PyIndex | cryptoMatrix.py:64 | Python list indexing succeeds exactly for indices `-len .. len - 1`, giving `s[k]` for `k >= 0` and `s[len + k]` for a negative `k`; any other index raises `IndexError` |

## Left out

- `print_matrix` and `main` print to and read from the console, so they are not modelled.
- The Mersenne Twister and `random.seed` are not modelled. Draws are an arbitrary function `nat -> nat`. Python's `randbelow` rejects and redraws out-of-range bits, so one choice may consume several generator outputs; the model's convention of one draw per choice, taken modulo `n`, reaches the same set of outcomes but not the same draw-by-draw sequence.
- Which shuffles are reachable from a string key is not modelled. `SevenBySevenMayLackSymbol` shows that some draws drop a symbol, not that some key produces those draws.
- `main` shares one generator state between `generate_matrix` and `encrypt`. `encrypt`'s draws are a separate parameter here.
- `Encrypt`: `message.upper()` at line 30 is not modelled, because Python's Unicode case mapping can change a string's length (`ß` becomes `SS`). The method receives the already upper-cased message.
- `Decrypt`: `str.isdigit` and `int` also accept non-ASCII decimal digits. The model recognises only `0`-`9`, so on text holding such digits it can raise where Python reads a digit.
- `GenerateMatrix`: a negative `size` is not modelled, because the side is a `nat`.
- `EncryptedLength`, `RoundTrip` and `GeneratedRoundTrip` require a grid of at most 9 x 9. On larger grids coordinates 10 and above take more than two characters, and `decrypt`'s fixed two-character tokens misread them. `Encrypt` itself is modelled for any size.
- `Decrypt` returns `Err(IndexError)` for both an out-of-range row and an out-of-range column, as Python raises the same exception type for both. The message text is not modelled.
- Later versions of the repository add key stretching, an HMAC tag, a three-dimensional lattice and a repair step that puts every symbol in the lattice. `cryptoMatrix.py` has none of these, so they are not modelled. The model follows `cryptoMatrix.py`: `Grid.SevenBySevenMayLackSymbol` shows that its 7 x 7 grid need not hold every symbol.
