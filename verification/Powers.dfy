/** Division by powers of two, as needed to reason about shifts and masks. */
module Powers {

  function Pow2(n: nat): nat
    ensures Pow2(n) >= 1
  {
    if n == 0 then 1 else 2 * Pow2(n - 1)
  }

  lemma {:induction false} Pow2Sum(a: nat, b: nat)
    ensures Pow2(a + b) == Pow2(a) * Pow2(b)
  {
    if a > 0 {
      Pow2Sum(a - 1, b);
      assert Pow2(a + b) == 2 * Pow2(a - 1 + b);
    }
  }

  lemma Pow2Values()
    ensures Pow2(8) == 0x100 && Pow2(64) == 0x1_0000_0000_0000_0000
  {
    assert Pow2(4) == 16;
    Pow2Sum(4, 4);
    Pow2Sum(8, 8);
    Pow2Sum(16, 16);
    Pow2Sum(32, 32);
  }

  /** Quotient and remainder are unique. */
  lemma DivModUnique(x: int, d: nat, q: int, r: int)
    requires d > 0 && x == q * d + r && 0 <= r < d
    ensures x / d == q && x % d == r
  {
    var k := x / d - q;
    assert x == (x / d) * d + x % d;
    assert k * d == r - x % d;
    if k >= 1 {
      MulAtLeast(k, d);
    } else if k <= -1 {
      MulAtLeast(-k, d);
    }
  }

  lemma MulAtLeast(k: int, d: nat)
    requires k >= 1
    ensures k * d >= d
  {
  }

  lemma MulBounds(q: nat, a: nat, b: nat)
    requires q < b
    ensures q * a + a <= a * b
  {
    var k := b - q - 1;
    MulNonNegative(a, k);
    calc {
      a * b;
      a * (q + 1 + k);
      a * q + a + a * k;
    }
  }

  lemma MulNonNegative(a: nat, b: nat)
    ensures a * b >= 0
  {
  }

  lemma DivMod(x: nat, d: nat)
    requires d > 0
    ensures x == (x / d) * d + x % d && 0 <= x % d < d
  {
  }

  /** Dropping `a` and then `b` is dropping `a * b`, and the low part splits the same way. */
  lemma DivDiv(x: nat, a: nat, b: nat)
    requires a > 0 && b > 0
    ensures a * b > 0
    ensures x / a / b == x / (a * b)
    ensures x % (a * b) == (x / a % b) * a + x % a
  {
    DivMod(x, a);
    DivMod(x / a, b);
    var q, r1, r0 := x / a / b, x / a % b, x % a;
    MulBounds(r1, a, b);
    assert x == q * (a * b) + (r1 * a + r0) by {
      assert x == (q * b + r1) * a + r0;
      assert (q * b + r1) * a == q * b * a + r1 * a;
      assert q * b * a == q * (a * b);
    }
    assert a * b >= 1 by { MulAtLeast(b, a); assert a * b == b * a; }
    DivModUnique(x, a * b, q, r1 * a + r0);
  }

  /** The low `a * b` part, without its low `a` part, is the low `b` part of what is above `a`. */
  lemma ModDiv(x: nat, a: nat, b: nat)
    requires a > 0 && b > 0
    ensures a * b > 0 && x % (a * b) / a == x / a % b
  {
    DivDiv(x, a, b);
    DivModUnique(x % (a * b), a, x / a % b, x % a);
  }

  lemma ModMod(x: nat, a: nat, b: nat)
    requires a > 0 && b > 0
    ensures a * b > 0 && x % (a * b) % a == x % a
  {
    DivDiv(x, a, b);
    DivModUnique(x % (a * b), a, x / a % b, x % a);
  }

  /** A left shift modulo a wider power keeps the low part only. */
  lemma ScaleMod(x: nat, a: nat, b: nat)
    requires a > 0 && b > 0
    ensures a * b > 0 && (x * a) % (a * b) == (x % b) * a
  {
    DivMod(x, b);
    MulBounds(x % b, a, b);
    assert x * a == (x / b) * (a * b) + (x % b) * a by {
      assert x * a == ((x / b) * b + x % b) * a;
      assert ((x / b) * b + x % b) * a == (x / b) * b * a + (x % b) * a;
      assert (x / b) * b * a == (x / b) * (a * b);
    }
    assert a * b >= 1 by { MulAtLeast(b, a); assert a * b == b * a; }
    DivModUnique(x * a, a * b, x / b, (x % b) * a);
  }
}
