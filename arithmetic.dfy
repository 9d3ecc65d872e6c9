/**
  The rest of the derived numeric surface: `Zero`, `One`, `Div`, `Rem` and
  `MulAdd`, each expressed through the prime field's own capabilities.
  The by-value and by-reference impls of `Div`, `Rem` and `MulAdd` have
  the same bodies; with value semantics one member models both.
*/
module ArithmeticAdapter {
  import Fp = PrimeField

  /** Elements of the field with modulus `p`. */
  predicate InField(x: nat, p: nat) {
    x < p
  }

  /** `Zero::zero`: the element that leaves every element unchanged under addition. */
  function Zero(p: nat): (r: nat)
    requires p > 1
    ensures InField(r, p)
    ensures forall y | InField(y, p) :: Fp.Add(r, y, p) == y
  {
    Fp.ZERO
  }

  /** `Zero::is_zero`, through the field's own zero test. */
  function IsZero(x: nat, p: nat): (b: bool)
    requires p > 1 && InField(x, p)
    ensures b <==> forall y | InField(y, p) :: Fp.Add(x, y, p) == y
  {
    assert Fp.Add(x, Fp.ZERO, p) == x;
    Fp.IsZero(x)
  }

  /** `One::one`: the element that leaves every element unchanged under multiplication. */
  function One(p: nat): (r: nat)
    requires p > 1
    ensures InField(r, p)
    ensures forall y | InField(y, p) :: Fp.Mul(r, y, p) == y
  {
    Fp.ONE
  }

  /** `One::is_one`, by value equality with the field's `ONE`. */
  function IsOne(x: nat, p: nat): (b: bool)
    requires p > 1 && InField(x, p)
    ensures b <==> forall y | InField(y, p) :: Fp.Mul(x, y, p) == y
  {
    assert Fp.Mul(x, Fp.ONE, p) == x;
    x == Fp.ONE
  }

  /** The identities are recognised by their predicates, and they differ. */
  lemma IdentitiesRecognised(p: nat)
    requires p > 1
    ensures IsZero(Zero(p), p) && IsOne(One(p), p)
    ensures !IsZero(One(p), p) && !IsOne(Zero(p), p)
  {
  }

  /**
    `Div::div`: `self * invert(rhs).unwrap()`. The unwrap panics when `rhs`
    is zero, so a nonzero divisor is required. The quotient times the
    divisor is the dividend.
  */
  function Div(x: nat, y: nat, p: nat): (r: nat)
    requires Fp.IsPrime(p) && InField(x, p) && InField(y, p)
    requires !Fp.IsZero(y)
    ensures InField(r, p) && Fp.Mul(r, y, p) == x
  {
    var inv := Fp.Invert(y, p).value;
    Fp.MulInverseCancel(x, y, inv, p);
    Fp.Mul(x, inv, p)
  }

  /** The quotient is the only element that gives the dividend back. */
  lemma {:induction false} DivIsUniqueQuotient(x: nat, y: nat, q: nat, p: nat)
    requires Fp.IsPrime(p) && InField(x, p) && InField(y, p) && InField(q, p)
    requires !Fp.IsZero(y) && Fp.Mul(q, y, p) == x
    ensures Div(x, y, p) == q
  {
    var inv := Fp.Invert(y, p).value;
    Fp.MulInverseCancel(q, y, inv, p);
  }

  /** Dividing by one changes nothing, and zero divided by anything is zero. */
  lemma DivIdentities(x: nat, y: nat, p: nat)
    requires Fp.IsPrime(p) && InField(x, p) && InField(y, p) && !Fp.IsZero(y)
    ensures Div(x, One(p), p) == x
    ensures Div(Zero(p), y, p) == Zero(p)
  {
    assert Fp.Mul(x, Fp.ONE, p) == x;
    DivIsUniqueQuotient(x, One(p), x, p);
    assert Fp.Mul(Fp.ZERO, y, p) == Fp.ZERO;
    DivIsUniqueQuotient(Zero(p), y, Zero(p), p);
  }

  /**
    `Rem::rem` as derived: it panics when the dividend `self` is zero,
    whatever `rhs` is, and otherwise returns zero without looking at `rhs`.
    For a nonzero divisor that is the remainder of exact division in a field.
  */
  function Rem(x: nat, y: nat, p: nat): (r: nat)
    requires Fp.IsPrime(p) && InField(x, p) && InField(y, p)
    requires !Fp.IsZero(x)
    ensures InField(r, p) && IsZero(r, p)
    ensures !Fp.IsZero(y) ==> Fp.Add(Fp.Mul(Div(x, y, p), y, p), r, p) == x
  {
    assert !Fp.IsZero(y) ==> Fp.Add(Fp.Mul(Div(x, y, p), y, p), Fp.ZERO, p) == x by {
      if !Fp.IsZero(y) {
        Fp.AddZero(Fp.Mul(Div(x, y, p), y, p), p);
      }
    }
    Fp.ZERO
  }

  /**
    The derived `rem` accepts a zero divisor: `1 % 0` returns zero, yet no
    quotient `q` satisfies `q * 0 + (1 % 0) == 1`.
  */
  lemma RemAcceptsZeroDivisor(p: nat)
    requires Fp.IsPrime(p)
    ensures Rem(1, 0, p) == Zero(p)
    ensures forall q | InField(q, p) :: Fp.Add(Fp.Mul(q, 0, p), Rem(1, 0, p), p) != 1
  {
  }

  /**
    The evidently intended `rem`: it requires a nonzero divisor, and the
    result completes the division identity `x == (x / y) * y + x % y` for
    every dividend, zero included.
  */
  function RemByDivisor(x: nat, y: nat, p: nat): (r: nat)
    requires Fp.IsPrime(p) && InField(x, p) && InField(y, p)
    requires !Fp.IsZero(y)
    ensures InField(r, p) && IsZero(r, p)
    ensures Fp.Add(Fp.Mul(Div(x, y, p), y, p), r, p) == x
  {
    Fp.AddZero(Fp.Mul(Div(x, y, p), y, p), p);
    Fp.ZERO
  }

  /**
    `MulAdd::mul_add`: `self *= a; self += b; self` on a local copy of
    `self`. The operands `a` and `b` are values and stay as they were.
  */
  method MulAdd(x: nat, a: nat, b: nat, p: nat) returns (r: nat)
    requires p > 1 && InField(x, p) && InField(a, p) && InField(b, p)
    ensures InField(r, p) && r == (x * a + b) % p
  {
    r := x;
    r := Fp.Mul(r, a, p);
    r := Fp.Add(r, b, p);
    Fp.ModAddLeft(x * a, b, p);
  }
}
