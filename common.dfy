/** Values shared by the HTTP side and the torrent side of the bridge. */
module Common {

  /** One octet, as held in `uint8_t` buffers and read from files and sockets. */
  newtype byte = b: int | 0 <= b < 256

  datatype Option<T> = None | Some(value: T)

  /** The range of a C `long long`. */
  const LLONG_MIN: int := -0x8000_0000_0000_0000
  const LLONG_MAX: int := 0x7fff_ffff_ffff_ffff

  /** The `std::pair<long long, long long>` used for a requested byte range and for the
      entries of the active range registry: `end == Open` means "to the end of the file". */
  datatype Range = Range(start: int, end: int)

  const Open: int := -1

  lemma Assoc<T>(a: seq<T>, b: seq<T>, c: seq<T>)
    ensures (a + b) + c == a + (b + c)
  {
  }

  /** The two halves of a concatenation. */
  lemma Halves<T>(a: seq<T>, b: seq<T>)
    ensures (a + b)[..|a|] == a && (a + b)[|a|..] == b
  {
  }

  /** C division of a `long long` by a positive divisor: the quotient rounded toward 0. */
  function CDiv(a: int, b: int): (q: int)
    requires b > 0
    ensures a >= 0 ==> q == a / b
    ensures a < 0 ==> q == -((-a) / b)
  {
    if a >= 0 then a / b else -((-a) / b)
  }

  /** Rounding toward 0 makes C division symmetric under negation, which Euclidean
      division is not: `-7 / 2` is -3 in C, and -4 as `/` on `int`. */
  lemma CDivOdd(a: int, b: int)
    requires b > 0
    ensures CDiv(-a, b) == -CDiv(a, b)
    ensures a >= 0 ==> CDiv(a, b) == a / b
  {
    if a > 0 {
      assert CDiv(-a, b) == -(a / b);
    } else if a < 0 {
      assert CDiv(-a, b) == (-a) / b;
    }
  }

  /** `-7 / 2` rounds to -3, where the Euclidean quotient is -4. */
  lemma CDivNegative()
    ensures CDiv(-7, 2) == -3 && -7 / 2 == -4
  {
  }

  function Min(a: int, b: int): int { if a <= b then a else b }
  function Max(a: int, b: int): int { if a >= b then a else b }
}
