/** Arithmetic in the prime field Z_P that the scheme's scalars live in.

    Elements of the groups G1, G2 and Gt are represented throughout by their
    exponents relative to the generators, so a pairing is a multiplication, and
    "addition" and "scaling" of group elements are addition and multiplication. */
module PrimeField {

  ghost predicate Divides(d: nat, n: nat)
    requires d > 0
  {
    n % d == 0
  }

  ghost predicate IsPrime(n: nat) {
    2 <= n && forall m :: 2 <= m < n ==> !Divides(m, n)
  }

  type Modulus = p: nat | IsPrime(p) witness 2

  /** The group order: an arbitrary prime, about which nothing else is known. */
  const P: Modulus

  type Scalar = x: nat | x < P witness 0

  lemma AtLeastTwo()
    ensures P >= 2
  {
  }

  // ----- Operations -----

  /** Subtracts the modulus from the sum, and adds it back on a borrow. */
  function Add(a: Scalar, b: Scalar): (r: Scalar)
    ensures r == if a + b < P then a + b else a + b - P
  {
    var d := a + b - P;
    if d < 0 then d + P else d
  }

  function Sub(a: Scalar, b: Scalar): (r: Scalar)
    ensures r == if a < b then a - b + P else a - b
  {
    Add(a, Neg(b))
  }

  function Neg(a: Scalar): (r: Scalar)
    ensures r == if a == 0 then 0 else P - a
  {
    var d: int := 0 - a;
    if d < 0 then d + P else d
  }

  /** Multiplication as iterated addition, the way a group element is scaled. */
  function Mul(a: Scalar, b: Scalar): Scalar {
    if b == 0 then 0 else Add(Mul(a, b - 1), a)
  }

  /** The scalar of a natural number. */
  function FromNat(n: nat): (x: Scalar)
    ensures n < P ==> x == n
  {
    if n < P then n else FromNat(n - P)
  }

  // ----- The operations are those of the integers modulo P -----

  /** Reduction of an integer, a ring homomorphism onto the scalars. */
  function Red(x: int): Scalar {
    x % P
  }

  lemma {:induction false} FromNatIsReduced(n: nat)
    ensures FromNat(n) == n % P
  {
    if n < P {
      ModUnique(n, P, 0, n);
    } else {
      FromNatIsReduced(n - P);
      RedShift(n - P, 1);
    }
  }

  lemma SmallMultiple(m: int, k: int)
    requires m > 0
    ensures k >= 1 ==> k * m >= m
    ensures k <= -1 ==> k * m <= -m
  {
    assert k * m == m + (k - 1) * m && k * m == -m + (k + 1) * m;
  }

  lemma ModUnique(x: int, m: nat, q: int, r: nat)
    requires r < m && x == q * m + r
    ensures x % m == r
  {
    var q', r' := x / m, x % m;
    assert x == q' * m + r';
    assert (q - q') * m == r' - r;
    SmallMultiple(m, q - q');
  }

  lemma RedShift(x: int, k: int)
    ensures Red(x + k * P) == Red(x)
  {
    var q, r := x / P, x % P;
    assert x == q * P + r;
    assert x + k * P == (q + k) * P + r;
    ModUnique(x + k * P, P, q + k, r);
  }

  lemma RedSplit(x: int)
    ensures exists k: int :: x == Red(x) + k * P
  {
    assert x == x % P + (x / P) * P;
  }

  lemma RedAdd(x: int, y: int)
    ensures Add(Red(x), Red(y)) == Red(x + y)
  {
    hide Red;
    RedSplit(x);
    RedSplit(y);
    var j :| x == Red(x) + j * P;
    var k :| y == Red(y) + k * P;
    var r := Add(Red(x), Red(y));
    var c := if r == Red(x) + Red(y) then j + k else j + k + 1;
    assert x + y == r + c * P by {
      assert (j + k) * P == j * P + k * P && (j + k + 1) * P == j * P + k * P + P;
    }
    RedShift(r, c);
    RedId(r);
  }

  lemma RedId(a: Scalar)
    ensures Red(a) == a
  {
    ModUnique(a, P, 0, a);
  }

  lemma {:induction false} MulIsRed(a: Scalar, b: Scalar)
    ensures Mul(a, b) == Red(a * b)
  {
    hide Red, Add;
    if b == 0 {
      assert a * b == 0;
      RedId(0);
    } else {
      MulIsRed(a, b - 1);
      RedId(a);
      RedAdd(a * (b - 1), a);
      assert a * (b - 1) + a == a * b;
    }
  }

  /** Multiplication is the product of the integers, reduced. */
  lemma MulIsProduct(a: Scalar, b: Scalar)
    ensures Mul(a, b) == (a * b) % P
  {
    hide Mul;
    MulIsRed(a, b);
  }

  lemma RedMul(x: int, y: int)
    ensures Mul(Red(x), Red(y)) == Red(x * y)
  {
    RedSplit(x);
    RedSplit(y);
    var a, b := Red(x), Red(y);
    MulIsRed(a, b);
    hide Mul, Red;
    var j :| x == a + j * P;
    var k :| y == b + k * P;
    var m := a * k + j * b + j * k * P;
    ProductSplit(a, b, j, k, P);
    RedShift(a * b, m);
  }

  lemma ProductSplit(a: int, b: int, j: int, k: int, p: int)
    ensures (a + j * p) * (b + k * p) == a * b + (a * k + j * b + j * k * p) * p
  {
  }

  lemma RedScalar(a: Scalar, b: Scalar)
    ensures Red(a) == a && Mul(a, b) == Red(a * b) && Add(a, b) == Red(a + b)
  {
    hide *;
    MulIsRed(a, b);
    RedId(a);
    RedId(b);
    RedAdd(a, b);
  }

  // ----- Ring laws.  Those of Add, Neg and Sub alone follow from their contracts. -----

  lemma AddInterchange(a: Scalar, b: Scalar, c: Scalar, d: Scalar)
    ensures Add(Add(a, b), Add(c, d)) == Add(Add(a, c), Add(b, d))
  {
    hide *;
  }

  lemma MulComm(a: Scalar, b: Scalar)
    ensures Mul(a, b) == Mul(b, a)
  {
    hide *;
    MulIsRed(a, b);
    MulIsRed(b, a);
    assert a * b == b * a;
  }

  lemma MulAssoc(a: Scalar, b: Scalar, c: Scalar)
    ensures Mul(Mul(a, b), c) == Mul(a, Mul(b, c))
  {
    hide *;
    MulIsRed(a, b);
    MulIsRed(b, c);
    RedId(a);
    RedId(c);
    RedMul(a * b, c);
    RedMul(a, b * c);
    ProductAssoc(a, b, c);
  }

  lemma ProductAssoc(a: int, b: int, c: int)
    ensures (a * b) * c == a * (b * c)
  {
  }

  lemma MulUnit(a: Scalar)
    ensures Mul(a, 1) == a && Mul(1, a) == a
    ensures Mul(a, 0) == 0 && Mul(0, a) == 0
  {
    MulComm(a, 1);
    MulComm(a, 0);
  }

  lemma Distrib(a: Scalar, b: Scalar, c: Scalar)
    ensures Mul(a, Add(b, c)) == Add(Mul(a, b), Mul(a, c))
    ensures Mul(Add(b, c), a) == Add(Mul(b, a), Mul(c, a))
  {
    hide *;
    DistribLeft(a, b, c);
    MulComm(a, Add(b, c));
    MulComm(a, b);
    MulComm(a, c);
  }

  lemma DistribLeft(a: Scalar, b: Scalar, c: Scalar)
    ensures Mul(a, Add(b, c)) == Add(Mul(a, b), Mul(a, c))
  {
    hide *;
    MulIsRed(a, b);
    MulIsRed(a, c);
    RedScalar(b, c);
    RedId(a);
    RedMul(a, b + c);
    RedAdd(a * b, a * c);
    ProductDistrib(a, b, c);
  }

  lemma ProductDistrib(a: int, b: int, c: int)
    ensures a * (b + c) == a * b + a * c
  {
  }

  lemma DistribSub(a: Scalar, b: Scalar, c: Scalar)
    ensures Mul(a, Sub(b, c)) == Sub(Mul(a, b), Mul(a, c))
    ensures Mul(Sub(b, c), a) == Sub(Mul(b, a), Mul(c, a))
  {
    hide *;
    assert Add(Sub(b, c), c) == b;
    Distrib(a, Sub(b, c), c);
  }

  lemma MulNeg(a: Scalar, b: Scalar)
    ensures Mul(Neg(a), b) == Neg(Mul(a, b)) && Mul(a, Neg(b)) == Neg(Mul(a, b))
  {
    hide *;
    DistribSub(b, 0, a);
    DistribSub(a, 0, b);
    MulUnit(a);
    MulUnit(b);
    assert Sub(0, a) == Neg(a) && Sub(0, b) == Neg(b);
  }

  lemma MulSwap(a: Scalar, b: Scalar, c: Scalar)
    ensures Mul(Mul(a, b), c) == Mul(Mul(a, c), b)
  {
    hide *;
    MulAssoc(a, b, c);
    MulComm(b, c);
    MulAssoc(a, c, b);
  }

  lemma MulInterchange(a: Scalar, b: Scalar, c: Scalar, d: Scalar)
    ensures Mul(Mul(a, b), Mul(c, d)) == Mul(Mul(a, c), Mul(b, d))
  {
    hide *;
    MulAssoc(Mul(a, b), c, d);
    MulSwap(a, b, c);
    MulAssoc(Mul(a, c), b, d);
  }

  // ----- Inverses, from Bezout's identity -----

  /** Extended Euclid: the greatest common divisor of a and b with its Bezout coefficients. */
  function ExtGcd(a: nat, b: nat): (r: (nat, int, int))
    requires a > 0 || b > 0
    ensures r.0 > 0 && a * r.1 + b * r.2 == r.0
    ensures Divides(r.0, a) && Divides(r.0, b)
    decreases b
  {
    if b == 0 then
      (a, 1, 0)
    else
      var (g, x, y) := ExtGcd(b, a % b);
      BezoutStep(a, b, g, x, y);
      (g, y, x - a / b * y)
  }

  lemma BezoutStep(a: nat, b: nat, g: nat, x: int, y: int)
    requires b > 0 && g > 0 && b * x + a % b * y == g
    requires Divides(g, b) && Divides(g, a % b)
    ensures a * y + b * (x - a / b * y) == g
    ensures Divides(g, a)
  {
    var q, m := a / b, a % b;
    assert a == b * q + m;
    calc {
      a * y + b * (x - q * y);
      (b * q + m) * y + b * x - b * (q * y);
      b * x + m * y;
    }
    MultipleOf(g, b);
    MultipleOf(g, m);
    var j, k := b / g, m / g;
    assert a == g * (j * q + k) by {
      assert b * q == g * (j * q);
    }
    DividesMultiple(g, j * q + k);
  }

  lemma MultipleOf(d: nat, n: nat)
    requires d > 0 && Divides(d, n)
    ensures n == d * (n / d)
  {
  }

  lemma DividesMultiple(d: nat, k: int)
    requires d > 0 && d * k >= 0
    ensures Divides(d, d * k)
  {
    ModUnique(d * k, d, k, 0);
  }

  lemma PrimeGcd(a: Scalar, g: nat)
    requires a != 0 && g > 0 && Divides(g, a) && Divides(g, P)
    ensures g == 1
  {
    MultipleOf(g, a);
    assert a / g != 0;
    SmallMultiple(g, a / g);
    assert g <= a < P;
  }

  lemma BezoutInverse(a: Scalar, g: nat, x: int, y: int)
    requires a != 0 && g > 0 && a * x + P * y == g
    requires Divides(g, a) && Divides(g, P)
    ensures Mul(a, Red(x)) == 1
  {
    hide Mul, Red;
    PrimeGcd(a, g);
    assert a * x == 1 + (-y) * P;
    RedShift(1, -y);
    RedScalar(1, 1);
    RedScalar(a, a);
    RedMul(a, x);
  }

  lemma InverseExists(a: Scalar)
    requires a != 0
    ensures exists r: Scalar :: Mul(a, r) == 1
  {
    var (g, x, y) := ExtGcd(a, P);
    BezoutInverse(a, g, x, y);
  }

  lemma InverseUnique(a: Scalar, r: Scalar, r': Scalar)
    requires Mul(a, r) == 1 && Mul(a, r') == 1
    ensures r == r'
  {
    hide *;
    MulUnit(r);
    MulUnit(r');
    MulSwap(a, r, r');
  }

  /** The multiplicative inverse; the source's `invert` fails exactly on zero. */
  function Inv(a: Scalar): (r: Scalar)
    requires a != 0
    ensures Mul(a, r) == 1
  {
    InverseExists(a);
    assert forall r: Scalar, r': Scalar :: Mul(a, r) == 1 && Mul(a, r') == 1 ==> r == r' by {
      forall r: Scalar, r': Scalar | Mul(a, r) == 1 && Mul(a, r') == 1
        ensures r == r'
      {
        InverseUnique(a, r, r');
      }
    }
    var r: Scalar :| 0 <= r < P && Mul(a, r) == 1;
    r
  }

  lemma NoZeroDivisors(a: Scalar, b: Scalar)
    ensures Mul(a, b) == 0 <==> a == 0 || b == 0
  {
    hide *;
    MulUnit(a);
    MulUnit(b);
    if a != 0 && Mul(a, b) == 0 {
      MulAssoc(Inv(a), a, b);
      MulComm(a, Inv(a));
      MulUnit(Inv(a));
    }
  }

  lemma Cancel(a: Scalar, b: Scalar, c: Scalar)
    requires a != 0 && Mul(a, b) == Mul(a, c)
    ensures b == c
  {
    hide *;
    DistribSub(a, b, c);
    NoZeroDivisors(a, Sub(b, c));
  }

  /** Inverses are unique, and the inverse of a product is the product of the inverses. */
  lemma InvUnique(a: Scalar, b: Scalar)
    requires Mul(a, b) == 1
    ensures a != 0 && Inv(a) == b
  {
    hide *;
    MulUnit(b);
    Cancel(a, Inv(a), b);
  }

  lemma InvMul(a: Scalar, b: Scalar)
    requires a != 0 && b != 0
    ensures Mul(a, b) != 0 && Inv(Mul(a, b)) == Mul(Inv(a), Inv(b))
  {
    hide *;
    MulInterchange(a, b, Inv(a), Inv(b));
    MulUnit(1);
    InvUnique(Mul(a, b), Mul(Inv(a), Inv(b)));
  }
}
