/** The parts of Java's integer and character arithmetic that the cipher code relies on. */
module JavaInt {

  /** A Java `char`: one UTF-16 code unit, an unsigned 16-bit value. */
  type Char16 = x: int | 0 <= x < 0x1_0000

  function Abs(b: int): (r: int) {
    if b < 0 then -b else b
  }

  /** Java's `%` on `int`: the quotient is truncated toward zero, so a non-zero
      remainder takes the sign of the dividend (unlike Dafny's Euclidean `%`). */
  function JavaRem(a: int, b: int): (r: int)
    requires b != 0
    ensures -Abs(b) < r < Abs(b)
    ensures a >= 0 ==> r >= 0
    ensures a <= 0 ==> r <= 0
  {
    if a >= 0 then a % Abs(b) else -((-a) % Abs(b))
  }

  /** Taking the remainder again changes nothing: the reason `key = key % RANGE`
      may run on every iteration of a loop without changing the shift. */
  lemma JavaRemIdempotent(a: int, b: int)
    requires b != 0
    ensures JavaRem(JavaRem(a, b), b) == JavaRem(a, b)
  {
    var r := JavaRem(a, b);
    if r >= 0 {
      ModOfSmall(r, Abs(b));
    } else {
      ModOfSmall(-r, Abs(b));
    }
  }

  /** A value already below the divisor is its own remainder. */
  lemma ModOfSmall(r: int, m: int)
    requires 0 <= r < m
    ensures r % m == r
  {
    var q := r / m;
    assert r == m * q + r % m;
  }

  /** The narrowing cast `(char)` from `int`: keeps the low 16 bits, that is,
      reduces modulo 65536 into the unsigned range. */
  function ToChar(x: int): (r: Char16)
    ensures (x - r) % 0x1_0000 == 0
    ensures 0 <= x < 0x1_0000 ==> r == x
    ensures -0x1_0000 <= x < 0 ==> r == x + 0x1_0000
  {
    x % 0x1_0000
  }

  /** The UTF-16 code units of a string made of characters of the Basic Multilingual
      Plane: a helper for writing text literals in the examples, not part of the library. */
  function CodeUnits(s: string): (r: seq<Char16>)
    requires forall i | 0 <= i < |s| :: s[i] as int < 0x1_0000
    ensures |r| == |s|
    ensures forall i | 0 <= i < |s| :: r[i] == s[i] as int
  {
    seq(|s|, i requires 0 <= i < |s| => s[i] as int)
  }
}
