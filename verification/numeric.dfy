/** Fixed-width .NET integer types and the unchecked casts between them. */
module Numeric {

  type byte = x: int | 0 <= x < 0x100
  type ushort = x: int | 0 <= x < 0x1_0000
  type short = x: int | -0x8000 <= x < 0x8000
  type uint = x: int | 0 <= x < 0x1_0000_0000

  const UInt32Modulus: int := 0x1_0000_0000

  /** An unchecked (short) cast: the low 16 bits read as two's complement. */
  function ToShort(x: int): (r: short)
    ensures (r - x) % 0x1_0000 == 0
    ensures -0x8000 <= x < 0x8000 ==> r == x
  {
    var low := x % 0x1_0000;
    if low < 0x8000 then low else low - 0x1_0000
  }

  /** An unchecked (ushort) cast: the low 16 bits read as unsigned. */
  function ToUShort(x: int): (r: ushort)
    ensures (r - x) % 0x1_0000 == 0
    ensures 0 <= x < 0x1_0000 ==> r == x
  {
    x % 0x1_0000
  }

  /** Storing a ushort in a short column and reading it back is lossless. */
  lemma UShortThroughShort(x: ushort)
    ensures ToUShort(ToShort(x)) == x
  {
  }

  /** Two ushorts that become the same short were the same ushort. */
  lemma ToShortInjectiveOnUShort(x: ushort, y: ushort)
    requires ToShort(x) == ToShort(y)
    ensures x == y
  {
    UShortThroughShort(x);
    UShortThroughShort(y);
  }

  /** C# integer division by a positive divisor: truncates toward zero. */
  function Quot(a: int, b: int): (q: int)
    requires b > 0
    ensures a >= 0 ==> b * q <= a < b * q + b
    ensures a < 0 ==> b * q - b < a <= b * q
  {
    if a >= 0 then a / b else -((-a) / b)
  }

  /** C# remainder by a positive divisor: takes the sign of the dividend. */
  function Rem(a: int, b: int): (r: int)
    requires b > 0
    ensures a == b * Quot(a, b) + r
    ensures a >= 0 ==> 0 <= r < b
    ensures a < 0 ==> -b < r <= 0
  {
    a - b * Quot(a, b)
  }

  /** Euclidean division of q * k + r by k, for a remainder r below k. */
  lemma DivMulAdd(q: int, r: int, k: int)
    requires 0 < k && 0 <= r < k
    ensures (q * k + r) / k == q && (q * k + r) % k == r
  {
    var n := q * k + r;
    var d := n / k - q;
    assert d * k == r - n % k;
  }

  /** DivMulAdd for a dividend n already known to be q * k + r. */
  lemma DivMulAddAt(n: int, q: int, r: int, k: int)
    requires 0 < k && 0 <= r < k && n == q * k + r
    ensures n / k == q && n % k == r
  {
    DivMulAdd(q, r, k);
  }
}
