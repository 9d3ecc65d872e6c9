/**
  The prime field that the derived numeric traits are built on. A field
  element is a natural number below the modulus `p`, and every operation
  takes `p` as a parameter. Only the capabilities the adapter consumes are
  given: the identities, embedding of small naturals (`Self::from(n)`),
  addition, multiplication, the zero test and inversion.
*/
module PrimeField {

  /** What `invert` returns: an element, or nothing for the additive identity. */
  datatype Option<T> = None | Some(value: T)

  /** `d` is a positive divisor of `n`. */
  predicate Divides(d: nat, n: nat) {
    d > 0 && n % d == 0
  }

  /** `p` is prime: it has no divisor strictly between 1 and itself. */
  ghost predicate IsPrime(p: nat) {
    p > 1 && forall d :: 1 < d < p ==> !Divides(d, p)
  }

  /** The additive identity `ZERO`. */
  const ZERO: nat := 0

  /** The multiplicative identity `ONE` (of any field with at least two elements). */
  const ONE: nat := 1

  /** `Self::from(n)`: the embedding of a natural number into the field. */
  function FromNat(n: nat, p: nat): (r: nat)
    requires p > 0
    ensures r < p
  {
    n % p
  }

  /** Field addition, as used by `+` and `+=`. */
  function Add(x: nat, y: nat, p: nat): (r: nat)
    requires p > 0
    ensures r < p
  {
    (x + y) % p
  }

  /** Field multiplication, as used by `*` and `*=`. */
  function Mul(x: nat, y: nat, p: nat): (r: nat)
    requires p > 0
    ensures r < p
  {
    (x * y) % p
  }

  /** The field's own zero test `is_zero`. */
  predicate IsZero(x: nat) {
    x == ZERO
  }

  // ---------------------------------------------------------------------
  // Modular arithmetic
  // ---------------------------------------------------------------------

  /** The remainder is determined by any quotient/remainder decomposition. */
  lemma ModUnique(x: int, q: int, r: int, p: nat)
    requires p > 0 && x == q * p + r && 0 <= r < p
    ensures x % p == r
  {
    var q', r' := x / p, x % p;
    assert (q - q') * p == r' - r;
    if q > q' {
      assert (q - q') * p >= p by { MulAtLeast(q - q', p); }
    } else if q < q' {
      assert (q' - q) * p >= p by { MulAtLeast(q' - q, p); }
    }
  }

  lemma MulAtLeast(k: int, p: nat)
    requires k >= 1
    ensures k * p >= p
  {
  }

  /** Adding a multiple of the modulus does not change the remainder. */
  lemma ModShift(k: int, m: int, p: nat)
    requires p > 0
    ensures (k * p + m) % p == m % p
  {
    assert k * p + m == (k + m / p) * p + m % p;
    ModUnique(k * p + m, k + m / p, m % p, p);
  }

  lemma ModMulLeft(a: int, b: int, p: nat)
    requires p > 0
    ensures ((a % p) * b) % p == (a * b) % p
  {
    var q := a / p;
    assert a * b == (q * b) * p + (a % p) * b;
    ModShift(q * b, (a % p) * b, p);
  }

  lemma ModMulRight(a: int, b: int, p: nat)
    requires p > 0
    ensures (a * (b % p)) % p == (a * b) % p
  {
    ModMulLeft(b, a, p);
  }

  lemma ModAddLeft(a: int, b: int, p: nat)
    requires p > 0
    ensures ((a % p) + b) % p == (a + b) % p
  {
    ModShift(a / p, (a % p) + b, p);
  }

  lemma ModAddRight(a: int, b: int, p: nat)
    requires p > 0
    ensures (a + (b % p)) % p == (a + b) % p
  {
    ModAddLeft(b, a, p);
  }

  // ---------------------------------------------------------------------
  // Field laws used by the adapter
  // ---------------------------------------------------------------------

  /** `Self::from` carries natural-number addition to field addition. */
  lemma {:induction false} FromNatAdd(a: nat, b: nat, p: nat)
    requires p > 0
    ensures FromNat(a + b, p) == Add(FromNat(a, p), FromNat(b, p), p)
  {
    ModAddLeft(a, b % p, p);
    ModAddRight(a, b, p);
  }

  /** `Self::from` carries natural-number multiplication to field multiplication. */
  lemma {:induction false} FromNatMul(a: nat, b: nat, p: nat)
    requires p > 0
    ensures FromNat(a * b, p) == Mul(FromNat(a, p), FromNat(b, p), p)
  {
    ModMulLeft(a, b % p, p);
    ModMulRight(a, b, p);
  }

  lemma {:induction false} MulAssoc(a: nat, b: nat, c: nat, p: nat)
    requires p > 0
    ensures Mul(Mul(a, b, p), c, p) == Mul(a, Mul(b, c, p), p)
  {
    ModMulLeft(a * b, c, p);
    ModMulRight(a, b * c, p);
    assert (a * b) * c == a * (b * c);
  }

  lemma MulComm(a: nat, b: nat, p: nat)
    requires p > 0
    ensures Mul(a, b, p) == Mul(b, a, p)
  {
    assert a * b == b * a;
  }

  /** One is neutral for multiplication. */
  lemma MulOne(a: nat, p: nat)
    requires p > 1 && a < p
    ensures Mul(a, ONE, p) == a
  {
    assert a * 1 == a;
  }

  /** Multiplying by an element and then by its inverse, in either order, cancels. */
  lemma {:induction false} MulInverseCancel(a: nat, b: nat, inv: nat, p: nat)
    requires p > 1 && a < p && Mul(b, inv, p) == ONE
    ensures Mul(Mul(a, b, p), inv, p) == a
    ensures Mul(Mul(a, inv, p), b, p) == a
  {
    MulAssoc(a, b, inv, p);
    MulAssoc(a, inv, b, p);
    MulComm(inv, b, p);
    MulOne(a, p);
  }

  /** Zero is neutral for addition. */
  lemma AddZero(x: nat, p: nat)
    requires p > 1 && x < p
    ensures Add(x, ZERO, p) == x
  {
  }

  // ---------------------------------------------------------------------
  // Inversion by the extended Euclidean algorithm
  // ---------------------------------------------------------------------

  /** A greatest common divisor `g` together with Bezout coefficients. */
  datatype Bezout = Bezout(g: nat, s: int, t: int)

  /**
    Extended Euclid: `g` divides both inputs and is an integer combination
    `s * a + t * b` of them.
  */
  function ExtGcd(a: nat, b: nat): (r: Bezout)
    decreases b
    ensures r.g == r.s * a + r.t * b
    ensures a > 0 || b > 0 ==> Divides(r.g, a) && Divides(r.g, b)
  {
    if b == 0 then Bezout(a, 1, 0)
    else
      var r' := ExtGcd(b, a % b);
      var q := a / b;
      assert r'.g == r'.t * a + (r'.s - q * r'.t) * b by {
        assert a % b == a - q * b;
        assert r'.t * (a - q * b) == r'.t * a - (q * r'.t) * b;
      }
      assert a % r'.g == 0 by {
        CommonDivisor(a, b, r'.g);
      }
      Bezout(r'.g, r'.t, r'.s - q * r'.t)
  }

  /** A divisor of `b` and of `a % b` divides `a`. */
  lemma CommonDivisor(a: nat, b: nat, g: nat)
    requires b > 0 && g > 0 && b % g == 0 && (a % b) % g == 0
    ensures a % g == 0
  {
    var q, kb, km := a / b, b / g, (a % b) / g;
    assert b == kb * g;
    assert a % b == km * g;
    assert a == q * b + a % b;
    assert a == (q * kb + km) * g + 0 by {
      assert q * b == q * (kb * g) == (q * kb) * g;
    }
    ModUnique(a, q * kb + km, 0, g);
  }

  /** A positive divisor of a positive number is at most that number. */
  lemma DivisorAtMost(g: nat, x: nat)
    requires Divides(g, x) && x > 0
    ensures g <= x
  {
    var k := x / g;
    assert x == k * g;
    assert k != 0;
    MulAtLeast(k, g);
  }

  /** A nonzero element below a prime modulus is coprime to it. */
  lemma CoprimeToPrime(x: nat, p: nat)
    requires IsPrime(p) && 0 < x < p
    ensures ExtGcd(x, p).g == 1
  {
    var g := ExtGcd(x, p).g;
    DivisorAtMost(g, x);
    PrimeDivisor(g, p);
  }

  /** The only divisor of a prime below itself is 1. */
  lemma PrimeDivisor(d: nat, p: nat)
    requires IsPrime(p) && Divides(d, p) && d < p
    ensures d == 1
  {
  }

  /**
    `invert`: the multiplicative inverse of a nonzero element, and nothing
    (the `CtOption` that `unwrap` panics on) for the additive identity.
  */
  function Invert(x: nat, p: nat): (r: Option<nat>)
    requires IsPrime(p) && x < p
    ensures r.None? <==> IsZero(x)
    ensures r.Some? ==> r.value < p && Mul(x, r.value, p) == ONE
  {
    if IsZero(x) then None
    else
      var b := ExtGcd(x, p);
      BezoutInverse(x, p);
      Some(b.s % p)
  }

  /** The Bezout coefficient of a nonzero element is its inverse. */
  lemma BezoutInverse(x: nat, p: nat)
    requires IsPrime(p) && 0 < x < p
    ensures Mul(x, ExtGcd(x, p).s % p, p) == ONE
  {
    var b := ExtGcd(x, p);
    CoprimeToPrime(x, p);
    assert x * b.s == -b.t * p + 1;
    ModUnique(x * b.s, -b.t, 1, p);
    ModMulRight(x, b.s, p);
  }

  /** Every nonzero element has an inverse, and it is unique. */
  lemma {:induction false} InverseUnique(x: nat, y: nat, p: nat)
    requires IsPrime(p) && x < p && y < p && Mul(x, y, p) == ONE
    ensures !IsZero(x) && Invert(x, p) == Some(y)
  {
    assert Mul(ZERO, y, p) == ZERO;
    var z := Invert(x, p).value;
    assert Mul(z, x, p) == ONE by {
      assert z * x == x * z;
    }
    MulAssoc(z, x, y, p);
    assert Mul(ONE, y, p) == y by { ModUnique(1 * y, 0, y, p); }
    assert Mul(z, ONE, p) == z by { ModUnique(z * 1, 0, z, p); }
  }
}
