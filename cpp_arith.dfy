/** C++ integer division and remainder. C++ truncates the quotient toward
    zero and gives the remainder the sign of the dividend; Dafny's `/` and
    `%` are Euclidean, so the two differ on negative operands. */
module CppArith {

  function Abs(x: int): nat
  {
    if x < 0 then -x else x
  }

  /** `a / b` on C++ `int`. */
  function Quot(a: int, b: int): (q: int)
    requires b != 0
    ensures Abs(q) == Abs(a) / Abs(b)
    ensures a >= 0 && b > 0 ==> q == a / b
    ensures (a < 0) == (b < 0) ==> q == Abs(a) / Abs(b)
    ensures (a < 0) != (b < 0) ==> q == -(Abs(a) / Abs(b))
  {
    var n := Abs(a) / Abs(b);
    DivNonNegative(Abs(a), Abs(b));
    if (a >= 0) == (b > 0) then n else -n
  }

  lemma DivNonNegative(x: int, y: int)
    requires x >= 0 && y > 0
    ensures x / y >= 0
  {
  }

  /** `a % b` on C++ `int`. */
  function Rem(a: int, b: int): (r: int)
    requires b != 0
    ensures Abs(r) < Abs(b)
    ensures a >= 0 ==> r >= 0
    ensures a <= 0 ==> r <= 0
    ensures a >= 0 && b > 0 ==> r == a % b
    ensures Quot(a, b) * b + r == a
  {
    var m := Abs(a) % Abs(b);
    QuotRecombines(a, b);
    if a >= 0 then m else -m
  }

  /** The quotient times the divisor, plus the remainder of the magnitudes
      with the dividend's sign, gives the dividend back. */
  lemma QuotRecombines(a: int, b: int)
    requires b != 0
    ensures Quot(a, b) * b + (if a >= 0 then Abs(a) % Abs(b) else -(Abs(a) % Abs(b))) == a
  {
    var n, m := Abs(a) / Abs(b), Abs(a) % Abs(b);
    assert Abs(a) == Abs(b) * n + m;
    if a >= 0 && b > 0 {
      assert Quot(a, b) * b == b * n;
    } else if a >= 0 {
      assert Quot(a, b) * b == (-n) * b == Abs(b) * n;
    } else if b < 0 {
      assert Quot(a, b) * b == n * b == -(Abs(b) * n);
    } else {
      assert Quot(a, b) * b == (-n) * b == -(Abs(b) * n);
    }
  }
}
