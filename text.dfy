/** Python's string and list primitives that the cipher leans on: the ASCII
    character classes of the `string` module, `str()` of a natural number,
    `int()` of one digit, list indexing with negative indices, and the two
    exceptions `decrypt` can raise. */
module Text {

  /** The exceptions a Python run of the cipher can end with. */
  datatype PyError = ValueError | IndexError

  /** A value, or the exception that interrupted its computation. */
  datatype Result<T> = Ok(value: T) | Err(error: PyError)

  /** `string.ascii_uppercase`. */
  const AsciiUppercase: string := "ABCDEFGHIJKLMNOPQRSTUVWXYZ"

  /** `c in string.ascii_uppercase` for a single character `c`. */
  predicate IsAsciiUpper(c: char) {
    'A' <= c <= 'Z'
  }

  /** `c.isdigit()` restricted to the ASCII digits. */
  predicate IsAsciiDigit(c: char) {
    '0' <= c <= '9'
  }

  /** `int(c)` for an ASCII digit `c`. */
  function DigitValue(c: char): (d: nat)
    requires IsAsciiDigit(c)
    ensures d < 10
  {
    c as int - '0' as int
  }

  /** The digit character whose value is `d`. */
  function DigitChar(d: nat): (c: char)
    requires d < 10
    ensures IsAsciiDigit(c) && DigitValue(c) == d
  {
    ('0' as int + d) as char
  }

  /** `str(n)`: the decimal numeral of `n`, most significant digit first. */
  function Decimal(n: nat): (s: string)
    ensures |s| >= 1 && (|s| == 1 <==> n < 10)
    ensures forall i :: 0 <= i < |s| ==> IsAsciiDigit(s[i])
  {
    if n < 10 then [DigitChar(n)] else Decimal(n / 10) + [DigitChar(n % 10)]
  }

  /** A number of two decimal places is written with exactly two digits. */
  lemma TwoDigitDecimal(n: nat)
    requires 10 <= n < 100
    ensures Decimal(n) == [DigitChar(n / 10), DigitChar(n % 10)]
  {
  }

  /** Every character `random.choice(string.ascii_uppercase)` can return is an
      ASCII capital letter. */
  lemma AsciiUppercaseLetters()
    ensures |AsciiUppercase| == 26
    ensures forall i :: 0 <= i < |AsciiUppercase| ==> IsAsciiUpper(AsciiUppercase[i])
  {
  }

  /** `s[k]` for a Python list: negative `k` counts from the end, and an index
      outside `-len(s) .. len(s) - 1` raises `IndexError`. */
  function PyIndex<T>(s: seq<T>, k: int): (r: Result<T>)
    ensures r.Ok? <==> -|s| <= k < |s|
    ensures 0 <= k < |s| ==> r == Ok(s[k])
    ensures -|s| <= k < 0 ==> r == Ok(s[|s| + k])
    ensures !(-|s| <= k < |s|) ==> r == Err(IndexError)
  {
    if 0 <= k < |s| then Ok(s[k])
    else if -|s| <= k < 0 then Ok(s[|s| + k])
    else Err(IndexError)
  }

  /** Multiplying by the same factor keeps the order. */
  lemma MulMono(a: nat, b: nat, k: nat)
    requires a <= b
    ensures a * k <= b * k
  {
    assert b * k == a * k + (b - a) * k;
  }

  /** Python's `//` and `%` on naturals: the quotient and remainder of `c`
      by `k` are the only `q`, `r < k` with `c == q * k + r`. */
  lemma DivUnique(c: nat, k: nat, q: nat, r: nat)
    requires k > 0 && r < k && c == q * k + r
    ensures c / k == q && c % k == r
  {
    var q', r' := c / k, c % k;
    assert c == q' * k + r';
    assert (q + 1) * k == q * k + k;
    assert (q' + 1) * k == q' * k + k;
    if q' > q {
      MulMono(q + 1, q', k);
      assert false;
    } else if q' < q {
      MulMono(q' + 1, q, k);
      assert false;
    }
  }
}
