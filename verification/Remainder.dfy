/** Positions in a ring: the remainder of C's unsigned and signed division. */
module Remainders {

  /** The remainder of a number that is not negative. */
  function Mod(a: nat, n: nat): (r: nat)
    requires n > 0
    ensures r < n
    ensures a < n ==> r == a
    ensures n <= a < 2 * n ==> r == a - n
    decreases a
  {
    if a < n then a else Mod(a - n, n)
  }

  /** Taking the divisor away again and again leaves the remainder of the division. */
  lemma {:induction false} ModIsRemainder(a: nat, n: nat)
    requires n > 0
    ensures Mod(a, n) == a % n
    decreases a
  {
    if a < n {
      OneRemainder(a, 0, a, n);
    } else {
      ModIsRemainder(a - n, n);
      RemainderAround(a - n, n);
    }
  }

  lemma RemainderAround(a: nat, n: nat)
    requires n > 0
    ensures (a + n) % n == a % n
  {
    var q, r := a / n, a % n;
    assert a == q * n + r;
    assert (q + 1) * n == q * n + n;
    OneRemainder(a + n, q + 1, r, n);
  }

  lemma OneRemainder(a: nat, q: nat, r: nat, n: nat)
    requires r < n && a == q * n + r
    ensures a % n == r
  {
    var d, m := a / n, a % n;
    assert a == d * n + m;
    if d > q {
      MulGap(d, q, n);
    } else if d < q {
      MulGap(q, d, n);
    }
  }

  lemma {:induction false} MulGap(d: nat, q: nat, n: nat)
    requires d > q
    ensures d * n >= q * n + n
  {
    if d == q + 1 {
      assert d * n == q * n + n;
    } else {
      MulGap(d - 1, q, n);
      assert d * n == (d - 1) * n + n;
    }
  }

  /** C's remainder: it has the sign of the dividend. */
  function CRem(a: int, n: nat): (r: int)
    requires n > 0
    ensures 0 - n < r < n && (0 <= a ==> 0 <= r)
    ensures 0 - n < a < n ==> r == a
    ensures n <= a < 2 * n ==> r == a - n
    ensures a == 0 - n ==> r == 0
  {
    if a >= 0 then Mod(a, n) else 0 - Mod(0 - a, n)
  }

  lemma {:induction false} ModNext(a: nat, n: nat)
    requires n > 0
    ensures Mod(a + 1, n) == Mod(Mod(a, n) + 1, n)
    decreases a
  {
    if a >= n {
      ModNext(a - n, n);
    }
  }

  lemma ModAround(a: nat, n: nat)
    requires n > 0
    ensures Mod(a + n, n) == Mod(a, n)
  {
  }

  /** Numbers less than the divisor apart have different remainders. */
  lemma {:induction false} ModsDiffer(i: nat, j: nat, n: nat)
    requires i < j < i + n
    ensures Mod(i, n) != Mod(j, n)
    decreases i
  {
    if i >= n {
      ModsDiffer(i - n, j - n, n);
    }
  }
}
