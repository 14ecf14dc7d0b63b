/** Day 13: the earliest bus, and the time at which the buses depart at their offsets,
    by extended Euclid, modular inverses and the Chinese remainder theorem. Integers are
    exact, as in Python; `//` and `%` follow Python's floor semantics. */
module Day13 {
  import opened Basics

  // ---------------------------------------------------------------------------
  // Python's floor division and modulo
  // ---------------------------------------------------------------------------

  /** Python's `b // a`: rounds toward minus infinity. */
  function PyDiv(b: int, a: int): int
    requires a != 0
  {
    if a > 0 || b % a == 0 then b / a else b / a - 1
  }

  /** Python's `b % a`: takes the sign of the divisor. */
  function PyMod(b: int, a: int): (r: int)
    requires a != 0
    ensures b == a * PyDiv(b, a) + r
    ensures a > 0 ==> 0 <= r < a
    ensures a < 0 ==> a < r <= 0
  {
    b - a * PyDiv(b, a)
  }

  /** For a positive divisor Python's `%` is Dafny's. */
  lemma PyModPositive(b: int, a: int)
    requires a > 0
    ensures PyMod(b, a) == b % a && PyDiv(b, a) == b / a
  {
  }

  // ---------------------------------------------------------------------------
  // Divisibility and congruences
  // ---------------------------------------------------------------------------

  /** `d` divides `n`. */
  predicate Divides(d: int, n: int)
  {
    if d == 0 then n == 0 else n % d == 0
  }

  /** No common divisor above 1. */
  ghost predicate Coprime(a: int, b: int)
  {
    forall d :: d > 1 ==> !(Divides(d, a) && Divides(d, b))
  }

  /** Euclidean division has one quotient and one remainder. */
  lemma DivModUnique(x: int, n: int, q: int, r: int)
    requires n > 0 && x == q * n + r && 0 <= r < n
    ensures x / n == q && x % n == r
  {
    var q0, r0 := x / n, x % n;
    assert x == q0 * n + r0;
    if q0 < q {
      assert (q - q0) * n == r0 - r;
      assert (q - q0) * n >= n by { MulAtLeast(q - q0, n); }
    } else if q0 > q {
      assert (q0 - q) * n == r - r0;
      assert (q0 - q) * n >= n by { MulAtLeast(q0 - q, n); }
    }
  }

  lemma MulAtLeast(k: int, n: int)
    requires k >= 1 && n > 0
    ensures k * n >= n
  {
  }

  lemma MulModZero(d: int, k: int)
    requires d != 0
    ensures (d * k) % d == 0
  {
    if d > 0 {
      DivModUnique(d * k, d, k, 0);
    } else {
      DivModUnique(d * k, -d, -k, 0);
      assert (d * k) % d == (d * k) % (-d);
    }
  }

  lemma DividesWitness(d: int, n: int)
    requires d != 0 && Divides(d, n)
    ensures n == d * (n / d)
  {
  }

  /** A divisor of `u` and `v` divides every combination of them. */
  lemma DividesCombination(d: int, u: int, v: int, s: int, t: int)
    requires Divides(d, u) && Divides(d, v)
    ensures Divides(d, u * s + v * t)
  {
    if d != 0 {
      DividesWitness(d, u);
      DividesWitness(d, v);
      var ku, kv := u / d, v / d;
      assert u * s + v * t == d * (ku * s + kv * t);
      MulModZero(d, ku * s + kv * t);
    }
  }

  lemma CombinationDivides(d: int, u: int, v: int, s: int, t: int)
    ensures Divides(d, u) && Divides(d, v) ==> Divides(d, u * s + v * t)
  {
    if Divides(d, u) && Divides(d, v) {
      DividesCombination(d, u, v, s, t);
    }
  }

  lemma DividesProduct(d: int, u: int, s: int)
    requires Divides(d, u)
    ensures Divides(d, u * s)
  {
    DividesCombination(d, u, 0, s, 0);
  }

  /** Adding a multiple of `n` does not change the residue. */
  lemma ModAddMultiple(x: int, c: int, n: int)
    requires n > 0
    ensures (x + c * n) % n == x % n
  {
    DivModUnique(x + c * n, n, x / n + c, x % n);
  }

  lemma ModAdd(x: int, y: int, n: int)
    requires n > 0
    ensures (x + y) % n == (x % n + y % n) % n
  {
    var qx, qy := x / n, y / n;
    assert x + y == (x % n + y % n) + (qx + qy) * n;
    ModAddMultiple(x % n + y % n, qx + qy, n);
  }

  lemma ModMul(x: int, y: int, n: int)
    requires n > 0
    ensures (x * y) % n == ((x % n) * (y % n)) % n
  {
    var qx, qy, rx, ry := x / n, y / n, x % n, y % n;
    assert x * y == rx * ry + (qx * ry + rx * qy + qx * qy * n) * n;
    ModAddMultiple(rx * ry, qx * ry + rx * qy + qx * qy * n, n);
  }

  /** A multiple of `n` is 0 modulo `n`. */
  lemma DividesMod(n: int, x: int)
    requires n > 0 && Divides(n, x)
    ensures x % n == 0
  {
  }

  /** Reducing modulo a multiple of `n` first does not change the residue modulo `n`. */
  lemma ModOfMultiple(x: int, n: int, m: int)
    requires n > 0 && m > 0 && Divides(n, m)
    ensures (x % m) % n == x % n
  {
    DividesWitness(n, m);
    var c := m / n;
    assert x == x % m + (x / m) * m;
    assert x % m + (x / m) * m == x % m + ((x / m) * c) * n;
    ModAddMultiple(x % m, (x / m) * c, n);
  }

  // ---------------------------------------------------------------------------
  // egcd and modinv
  // ---------------------------------------------------------------------------

  /** egcd(a, b) = (g, x, y): `a*x + b*y == g`, and `g` divides both, so every common
      divisor divides `g`. For non-negative arguments `g` is their greatest common
      divisor (non-negative). It terminates because `|b % a| < |a|`. */
  function EGcd(a: int, b: int): (r: (int, int, int))
    ensures a * r.1 + b * r.2 == r.0
    ensures Divides(r.0, a) && Divides(r.0, b)
    ensures a >= 0 && b >= 0 ==> r.0 >= 0
    decreases if a >= 0 then a else -a
  {
    if a == 0 then (b, 0, 1)
    else
      var m := PyMod(b, a);
      var q := PyDiv(b, a);
      var (g, x, y) := EGcd(m, a);
      EGcdStep(a, b, q, m, g, x, y);
      (g, y - q * x, x)
  }

  lemma EGcdStep(a: int, b: int, q: int, m: int, g: int, x: int, y: int)
    requires b == a * q + m
    requires m * x + a * y == g && Divides(g, m) && Divides(g, a)
    ensures a * (y - q * x) + b * x == g
    ensures Divides(g, b)
  {
    assert a * (y - q * x) + b * x == m * x + a * y;
    DividesCombination(g, a, m, q, 1);
    assert a * q + m * 1 == b;
  }

  /** Every common divisor of `a` and `b` divides what egcd returns. */
  lemma EGcdGreatest(a: int, b: int, d: int)
    ensures Divides(d, a) && Divides(d, b) ==> Divides(d, EGcd(a, b).0)
  {
    var (g, x, y) := EGcd(a, b);
    if Divides(d, a) && Divides(d, b) {
      DividesCombination(d, a, b, x, y);
    }
  }

  /** `x` is an inverse of `b` modulo `n`. */
  predicate IsInverse(b: int, x: int, n: int)
    requires n > 0
  {
    (b * x) % n == 1 % n
  }

  /** modinv(b, n): `x % n` when egcd(b, n) reports 1, and None otherwise. A zero modulus
      would divide by zero when egcd reports 1, so it is excluded. */
  function ModInv(b: int, n: int): (r: Option<int>)
    requires n != 0
    ensures r.Some? ==> PyMod(b * r.value, n) == PyMod(1, n)
    ensures r.Some? && n > 0 ==> 0 <= r.value < n
  {
    var (g, x, y) := EGcd(b, n);
    if g == 1 then
      InverseFromBezout(b, n, x, y);
      Some(PyMod(x, n))
    else None
  }

  lemma InverseFromBezout(b: int, n: int, x: int, y: int)
    requires n != 0 && b * x + n * y == 1
    ensures PyMod(b * PyMod(x, n), n) == PyMod(1, n)
  {
    var q := PyDiv(x, n);
    var x' := PyMod(x, n);
    assert b * x' == 1 - n * (y + b * q);
    var k := y + b * q;
    // 1 - n*k and 1 leave the same Python remainder
    var q1 := PyDiv(1, n);
    var r1 := PyMod(1, n);
    assert 1 - n * k == n * (q1 - k) + r1;
    PyModUnique(1 - n * k, n, q1 - k, r1);
  }

  /** Python's quotient and remainder are unique too. */
  lemma PyModUnique(x: int, n: int, q: int, r: int)
    requires n != 0 && x == n * q + r
    requires n > 0 ==> 0 <= r < n
    requires n < 0 ==> n < r <= 0
    ensures PyMod(x, n) == r
  {
    var q0, r0 := PyDiv(x, n), PyMod(x, n);
    if q0 < q {
      assert n * (q - q0) == r0 - r;
      if n > 0 { MulAtLeast(q - q0, n); } else { MulAtLeast(q - q0, -n); }
    } else if q0 > q {
      assert n * (q0 - q) == r - r0;
      if n > 0 { MulAtLeast(q0 - q, n); } else { MulAtLeast(q0 - q, -n); }
    }
  }

  /** For a positive modulus and a non-negative `b`, modinv answers None exactly when `b`
      has no inverse modulo `n`, and it succeeds exactly for `b` coprime to `n`. */
  lemma ModInvComplete(b: int, n: int)
    requires b >= 0 && n > 0
    ensures ModInv(b, n).Some? ==> IsInverse(b, ModInv(b, n).value, n)
    ensures ModInv(b, n).None? ==> forall x :: !IsInverse(b, x, n)
    ensures ModInv(b, n).Some? <==> Coprime(b, n)
  {
    if ModInv(b, n).Some? {
      ModInvFound(b, n);
    } else {
      ModInvMissing(b, n);
    }
  }

  lemma ModInvFound(b: int, n: int)
    requires b >= 0 && n > 0 && ModInv(b, n).Some?
    ensures IsInverse(b, ModInv(b, n).value, n) && Coprime(b, n)
  {
    var r := ModInv(b, n).value;
    PyModPositive(b * r, n);
    PyModPositive(1, n);
    GcdOneCoprime(b, n);
  }

  lemma GcdOneCoprime(b: int, n: int)
    requires EGcd(b, n).0 == 1
    ensures Coprime(b, n)
  {
    forall d | d > 1
      ensures !(Divides(d, b) && Divides(d, n))
    {
      EGcdGreatest(b, n, d);
      Reduced(1, d);
    }
  }

  lemma ModInvMissing(b: int, n: int)
    requires b >= 0 && n > 0 && ModInv(b, n).None?
    ensures (forall x :: !IsInverse(b, x, n)) && !Coprime(b, n)
  {
    var g := EGcd(b, n).0;
    assert g != 1 && g >= 0 && Divides(g, n);
    assert g != 0;
    assert g > 1 && Divides(g, b);
    forall x | true
      ensures !IsInverse(b, x, n)
    {
      NoInverse(b, n, g, x);
    }
  }

  /** A common divisor above 1 rules out every inverse. */
  lemma NoInverse(b: int, n: int, g: int, x: int)
    requires n > 0 && g > 1 && Divides(g, b) && Divides(g, n)
    ensures (b * x) % n != 1 % n
  {
    DivisorAtMost(g, n);
    assert 1 % n == 1;
    var q, r := (b * x) / n, (b * x) % n;
    assert b * x + n * (-q) == r;
    DividesCombination(g, b, n, x, -q);
    assert Divides(g, r);
    assert 1 % g == 1;
  }

  /** A positive number's divisors are at most the number. */
  lemma DivisorAtMost(g: int, n: int)
    requires g > 0 && n > 0 && Divides(g, n)
    ensures g <= n
  {
    DividesWitness(g, n);
    var c := n / g;
    assert g * c > 0;
    assert c > 0;
    MulAtLeast(c, g);
  }

  // ---------------------------------------------------------------------------
  // chinese_remainder
  // ---------------------------------------------------------------------------

  /** reduce(lambda a, b: a*b, ns) for a non-empty list; 1 for the empty one. */
  function Product(ns: seq<int>): int
  {
    if ns == [] then 1 else ns[0] * Product(ns[1..])
  }

  /** The list without its entry at `k`. */
  function Others(ns: seq<int>, k: int): (r: seq<int>)
    requires 0 <= k < |ns|
    ensures |r| == |ns| - 1
    ensures forall i :: 0 <= i < |r| ==> r[i] == ns[if i < k then i else i + 1]
  {
    ns[..k] + ns[k + 1..]
  }

  ghost predicate PairwiseCoprime(ns: seq<int>)
  {
    forall i, j :: 0 <= i < |ns| && 0 <= j < |ns| && i != j ==> Coprime(ns[i], ns[j])
  }

  predicate AllPositive(ns: seq<int>)
  {
    forall i :: 0 <= i < |ns| ==> ns[i] > 0
  }

  lemma {:induction false} ProductAppend(xs: seq<int>, ys: seq<int>)
    ensures Product(xs + ys) == Product(xs) * Product(ys)
  {
    if xs == [] {
      assert xs + ys == ys;
    } else {
      assert (xs + ys)[1..] == xs[1..] + ys;
      ProductAppend(xs[1..], ys);
      assert Product(xs + ys) == xs[0] * (Product(xs[1..]) * Product(ys));
    }
  }

  lemma {:induction false} ProductPositive(ns: seq<int>)
    requires AllPositive(ns)
    ensures Product(ns) > 0
  {
    if ns != [] {
      ProductPositive(ns[1..]);
      assert ns[0] * Product(ns[1..]) > 0 by { PositiveProduct(ns[0], Product(ns[1..])); }
    }
  }

  lemma PositiveProduct(a: int, b: int)
    requires a > 0 && b > 0
    ensures a * b > 0
  {
  }

  /** The product is the entry at `k` times the product of the others. */
  lemma {:induction false} ProductOthers(ns: seq<int>, k: int)
    requires 0 <= k < |ns|
    ensures Product(ns) == ns[k] * Product(Others(ns, k))
  {
    var tail := ns[1..];
    if k == 0 {
      assert Others(ns, 0) == tail;
    } else {
      var rest := Others(tail, k - 1);
      ProductOthers(tail, k - 1);
      assert Product(Others(ns, k)) == ns[0] * Product(rest) by {
        assert Others(ns, k) == [ns[0]] + rest;
        assert (Others(ns, k))[1..] == rest;
      }
      Rearrange(Product(ns), Product(tail), Product(Others(ns, k)), ns[0], ns[k], Product(rest));
    }
  }

  lemma Rearrange(whole: int, mid: int, others: int, a: int, n: int, b: int)
    requires whole == a * mid && mid == n * b && others == a * b
    ensures whole == n * others
  {
  }

  /** Every entry divides the product. */
  lemma EntryDividesProduct(ns: seq<int>, i: int)
    requires 0 <= i < |ns|
    ensures Divides(ns[i], Product(ns))
  {
    ProductOthers(ns, i);
    if ns[i] != 0 {
      MulModZero(ns[i], Product(Others(ns, i)));
    }
  }

  /** Bezout's identity for coprime arguments. */
  lemma CoprimeBezout(a: int, n: int) returns (x: int, y: int)
    requires a >= 0 && n > 0 && Coprime(a, n)
    ensures a * x + n * y == 1
  {
    var g;
    g, x, y := EGcd(a, n).0, EGcd(a, n).1, EGcd(a, n).2;
    assert g != 0;
    assert !(g > 1 && Divides(g, a) && Divides(g, n));
  }

  lemma CoprimeMul(a: int, b: int, n: int)
    requires a >= 0 && b >= 0 && n > 0 && Coprime(a, n) && Coprime(b, n)
    ensures Coprime(a * b, n)
  {
    var x1, y1 := CoprimeBezout(a, n);
    var x2, y2 := CoprimeBezout(b, n);
    var s, t := x1 * x2, y1 + y2 - n * y1 * y2;
    assert (a * b) * s == (a * x1) * (b * x2);
    assert (1 - n * y1) * (1 - n * y2) == 1 - n * t;
    assert (a * b) * s + n * t == 1;
    forall d | d > 1
      ensures !(Divides(d, a * b) && Divides(d, n))
    {
      CombinationDivides(d, a * b, n, s, t);
      assert 1 % d == 1;
    }
  }

  lemma {:induction false} CoprimeProduct(ys: seq<int>, n: int)
    requires n > 0 && AllPositive(ys)
    requires forall i :: 0 <= i < |ys| ==> Coprime(ys[i], n)
    ensures Coprime(Product(ys), n)
  {
    if ys == [] {
      forall d | d > 1
        ensures !Divides(d, 1)
      {
        assert 1 % d == 1;
      }
    } else {
      CoprimeProduct(ys[1..], n);
      ProductPositive(ys[1..]);
      CoprimeMul(ys[0], Product(ys[1..]), n);
    }
  }

  /** The product of the other moduli, and what chinese_remainder knows about it. */
  lemma CofactorFacts(ns: seq<int>, k: int)
    requires AllPositive(ns) && PairwiseCoprime(ns) && 0 <= k < |ns|
    ensures Product(ns) > 0
    ensures Product(ns) / ns[k] == Product(Others(ns, k)) > 0
    ensures Coprime(Product(Others(ns, k)), ns[k])
    ensures forall j :: 0 <= j < |ns| && j != k ==> Divides(ns[j], Product(Others(ns, k)))
  {
    var os := Others(ns, k);
    ProductPositive(ns);
    ProductPositive(os);
    ProductOthers(ns, k);
    DivModUnique(Product(ns), ns[k], Product(os), 0);
    CoprimeProduct(os, ns[k]);
    forall j | 0 <= j < |ns| && j != k
      ensures Divides(ns[j], Product(os))
    {
      EntryDividesProduct(os, if j < k then j else j - 1);
    }
  }

  /** One round of chinese_remainder's loop: the new term is congruent to its residue
      modulo its own modulus and to 0 modulo every other one. */
  lemma CrtRound(ns: seq<int>, rems: seq<int>, k: int, sum: int, p: int, inv: int)
    requires AllPositive(ns) && 0 <= k < |ns| && k < |rems|
    requires IsInverse(p, inv, ns[k])
    requires forall j :: 0 <= j < |ns| && j != k ==> Divides(ns[j], p)
    requires forall j :: 0 <= j < |ns| ==> sum % ns[j] == (if j < k then rems[j] else 0) % ns[j]
    ensures forall j :: 0 <= j < |ns| ==>
              (sum + rems[k] * inv * p) % ns[j] == (if j < k + 1 then rems[j] else 0) % ns[j]
  {
    forall j | 0 <= j < |ns|
      ensures (sum + rems[k] * inv * p) % ns[j] == (if j < k + 1 then rems[j] else 0) % ns[j]
    {
      CrtStepAt(ns[j], j == k, sum, rems[k], inv, p, if j < k then rems[j] else 0);
    }
  }

  /** The loop's residue modulo one modulus, before and after the round. */
  lemma CrtStepAt(n: int, own: bool, sum: int, x: int, inv: int, p: int, before: int)
    requires n > 0
    requires own ==> IsInverse(p, inv, n) && before == 0
    requires !own ==> Divides(n, p)
    requires sum % n == before % n
    ensures (sum + x * inv * p) % n == (if own then x else before) % n
  {
    var term := x * inv * p;
    TermMod(n, own, x, inv, p);
    if own {
      Reduced(0, n);
      AddToMultiple(n, sum, term);
    } else {
      AddMultiple(n, sum, term);
    }
  }

  /** The term a round adds is `x` modulo its own modulus and 0 modulo the others. */
  lemma TermMod(n: int, own: bool, x: int, inv: int, p: int)
    requires n > 0
    requires own ==> IsInverse(p, inv, n)
    requires !own ==> Divides(n, p)
    ensures (x * inv * p) % n == if own then x % n else 0
  {
    if own {
      assert x * inv * p == x * (p * inv);
      OwnTerm(x, p * inv, n);
    } else {
      assert x * inv * p == (x * inv) * p;
      OtherTerm(x * inv, p, n);
    }
  }

  lemma AddMultiple(n: int, sum: int, term: int)
    requires n > 0 && term % n == 0
    ensures (sum + term) % n == sum % n
  {
    ModAdd(sum, term, n);
    Reduced(sum % n, n);
  }

  lemma AddToMultiple(n: int, sum: int, term: int)
    requires n > 0 && sum % n == 0
    ensures (sum + term) % n == term % n
  {
    ModAdd(sum, term, n);
    Reduced(term % n, n);
  }

  lemma Reduced(r: int, n: int)
    requires 0 <= r < n
    ensures r % n == r
  {
    DivModUnique(r, n, 0, r);
  }

  lemma OwnTerm(x: int, e: int, n: int)
    requires n > 0 && (e % n) == 1 % n
    ensures (x * e) % n == x % n
  {
    ModMul(x, e, n);
    if n == 1 {
      DivModUnique(x, 1, x, 0);
      DivModUnique(x * e, 1, x * e, 0);
    } else {
      Reduced(1, n);
      Reduced(x % n, n);
    }
  }

  lemma OtherTerm(c: int, p: int, n: int)
    requires n > 0 && Divides(n, p)
    ensures (c * p) % n == 0
  {
    DividesWitness(n, p);
    var q := p / n;
    assert c * p == (c * q) * n;
    ModAddMultiple(0, c * q, n);
  }

  /** chinese_remainder(ns, rems): for positive, pairwise coprime moduli the result lies in
      [0, prod) and is congruent to each residue modulo its modulus (zip stops at the
      shorter list; a modulus without a residue gets 0). Non-coprime positive moduli make
      some modinv return None, on which Python raises. */
  method ChineseRemainder(ns: seq<int>, rems: seq<int>) returns (r: int)
    requires |ns| >= 1 && AllPositive(ns) && PairwiseCoprime(ns)
    ensures 0 <= r < Product(ns)
    ensures forall j :: 0 <= j < |ns| ==> r % ns[j] == (if j < |rems| then rems[j] else 0) % ns[j]
  {
    var sum := 0;
    var prod := Product(ns);
    ProductPositive(ns);
    var m := if |ns| < |rems| then |ns| else |rems|;
    for k := 0 to m
      invariant forall j :: 0 <= j < |ns| ==> sum % ns[j] == (if j < k then rems[j] else 0) % ns[j]
    {
      var p := prod / ns[k];
      CofactorFacts(ns, k);
      ModInvComplete(p, ns[k]);
      var inv := ModInv(p, ns[k]);
      CrtRound(ns, rems, k, sum, p, inv.value);
      sum := sum + rems[k] * inv.value * p;
    }
    r := sum % prod;
    forall j | 0 <= j < |ns|
      ensures r % ns[j] == (if j < |rems| then rems[j] else 0) % ns[j]
    {
      EntryDividesProduct(ns, j);
      ModOfMultiple(sum, ns[j], prod);
    }
  }

  // ---------------------------------------------------------------------------
  // part1: the earliest bus
  // ---------------------------------------------------------------------------

  /** part1's starting minimum wait and bus id. */
  const MinSentinel := 99999999
  const IdSentinel := 999999999

  /** How long after `t` bus `id` departs: `i - (inp_t % i)`. A bus that departs
      exactly at `t` waits a whole period. */
  function Wait(t: int, id: int): (w: int)
    requires id != 0
    ensures id > 0 ==> 1 <= w <= id
    ensures id > 0 ==> (t + w) % id == 0
  {
    PyModPositiveIf(t, id);
    id - PyMod(t, id)
  }

  lemma PyModPositiveIf(t: int, id: int)
    requires id != 0
    ensures id > 0 ==> (t + (id - PyMod(t, id))) % id == 0
  {
    if id > 0 {
      PyModPositive(t, id);
      assert t + (id - t % id) == (t / id + 1) * id;
      MulModZero(id, t / id + 1);
      assert (t / id + 1) * id == id * (t / id + 1);
    }
  }

  /** Bus `m` has the least wait, below the starting minimum, and every earlier bus waits
      strictly longer. */
  predicate IsEarliestMin(t: int, ids: seq<int>, m: int)
    requires forall k :: 0 <= k < |ids| ==> ids[k] != 0
  {
    0 <= m < |ids| && Wait(t, ids[m]) < MinSentinel
    && (forall j :: 0 <= j < |ids| ==> Wait(t, ids[m]) <= Wait(t, ids[j]))
    && (forall j :: 0 <= j < m ==> Wait(t, ids[m]) < Wait(t, ids[j]))
  }

  /** part1: the id of the bus with the least wait (the first such bus, as `<` is strict)
      times its wait. If no bus waits less than the starting minimum, the starting values
      come back multiplied. */
  method Part1(t: int, ids: seq<int>) returns (r: int)
    requires forall k :: 0 <= k < |ids| ==> ids[k] != 0
    ensures (forall j :: 0 <= j < |ids| ==> Wait(t, ids[j]) >= MinSentinel) ==> r == IdSentinel * MinSentinel
    ensures (exists j :: 0 <= j < |ids| && Wait(t, ids[j]) < MinSentinel) ==>
              exists m :: IsEarliestMin(t, ids, m) && r == ids[m] * Wait(t, ids[m])
    ensures forall m :: IsEarliestMin(t, ids, m) ==> r == ids[m] * Wait(t, ids[m])
  {
    var min, minV := MinSentinel, IdSentinel;
    ghost var best := -1;
    for k := 0 to |ids|
      invariant best == -1 ==> min == MinSentinel && minV == IdSentinel
      invariant best == -1 ==> forall j :: 0 <= j < k ==> Wait(t, ids[j]) >= MinSentinel
      invariant best != -1 ==> 0 <= best < k && min == Wait(t, ids[best]) < MinSentinel && minV == ids[best]
      invariant best != -1 ==> forall j :: 0 <= j < k ==> min <= Wait(t, ids[j])
      invariant best != -1 ==> forall j :: 0 <= j < best ==> min < Wait(t, ids[j])
    {
      var x := ids[k] - PyMod(t, ids[k]);
      if x < min {
        minV, min, best := ids[k], x, k;
      }
    }
    r := minV * min;
    if best != -1 {
      assert IsEarliestMin(t, ids, best);
      forall m | IsEarliestMin(t, ids, m)
        ensures m == best
      {
        assert Wait(t, ids[m]) == Wait(t, ids[best]);
      }
    }
  }

  // ---------------------------------------------------------------------------
  // part2_notbad: the offsets by the Chinese remainder theorem
  // ---------------------------------------------------------------------------

  /** The listed buses as (index, id), in order; `x` entries are None. */
  function Buses(inp: seq<Option<int>>): (r: seq<(int, int)>)
    ensures forall k :: 0 <= k < |r| ==> 0 <= r[k].0 < |inp| && inp[r[k].0] == Some(r[k].1)
    ensures forall k, l :: 0 <= k < l < |r| ==> r[k].0 < r[l].0
  {
    if inp == [] then []
    else
      var front := Buses(inp[..|inp| - 1]);
      var i := |inp| - 1;
      if inp[i].Some? then front + [(i, inp[i].value)] else front
  }

  /** Every listed bus is in Buses. */
  lemma {:induction false} BusListed(inp: seq<Option<int>>, i: int) returns (k: int)
    requires 0 <= i < |inp| && inp[i].Some?
    ensures 0 <= k < |Buses(inp)| && Buses(inp)[k].0 == i
    decreases |inp|
  {
    var front := inp[..|inp| - 1];
    if i == |inp| - 1 {
      k := |Buses(front)|;
    } else {
      k := BusListed(front, i);
    }
  }

  /** part2_notbad: with `m` the last listed index, solves t' ≡ m - i (mod id) for every
      listed bus and returns t' - m, so that bus `id` at index `i` departs at t + i. Python
      raises on a list with no bus (max of nothing) and, through modinv, on ids that share
      a factor. */
  method Part2NotBad(inp: seq<Option<int>>) returns (t: int)
    requires exists i :: 0 <= i < |inp| && inp[i].Some?
    requires forall i :: 0 <= i < |inp| && inp[i].Some? ==> inp[i].value > 0
    requires forall i, j :: 0 <= i < |inp| && 0 <= j < |inp| && i != j && inp[i].Some? && inp[j].Some?
               ==> Coprime(inp[i].value, inp[j].value)
    ensures forall i :: 0 <= i < |inp| && inp[i].Some? ==> (t + i) % inp[i].value == 0
  {
    var bs := Buses(inp);
    ghost var i0 :| 0 <= i0 < |inp| && inp[i0].Some?;
    ghost var k0 := BusListed(inp, i0);
    var m := bs[|bs| - 1].0;
    var ns := seq(|bs|, k requires 0 <= k < |bs| => bs[k].1);
    var rems := seq(|bs|, k requires 0 <= k < |bs| => m - bs[k].0);
    BusIdsCoprime(inp, ns);
    var r := ChineseRemainder(ns, rems);
    t := r - m;
    Departures(inp, m, ns, rems, r);
  }

  /** A solution of the congruences r ≡ m - i (mod id) gives departures at r - m + i. */
  lemma Departures(inp: seq<Option<int>>, m: int, ns: seq<int>, rems: seq<int>, r: int)
    requires |ns| == |rems| == |Buses(inp)|
    requires forall k :: 0 <= k < |ns| ==> ns[k] == Buses(inp)[k].1 && rems[k] == m - Buses(inp)[k].0
    requires forall i :: 0 <= i < |inp| && inp[i].Some? ==> inp[i].value > 0
    requires forall j :: 0 <= j < |ns| ==> r % ns[j] == (if j < |rems| then rems[j] else 0) % ns[j]
    ensures forall i :: 0 <= i < |inp| && inp[i].Some? ==> (r - m + i) % inp[i].value == 0
  {
    var bs := Buses(inp);
    forall i | 0 <= i < |inp| && inp[i].Some?
      ensures (r - m + i) % inp[i].value == 0
    {
      var k := BusListed(inp, i);
      var n := ns[k];
      assert n == bs[k].1 == inp[i].value && rems[k] == m - i;
      assert r % n == (m - i) % n;
      OffsetResidue(r, m, i, n);
    }
  }

  lemma BusIdsCoprime(inp: seq<Option<int>>, ns: seq<int>)
    requires forall i, j :: 0 <= i < |inp| && 0 <= j < |inp| && i != j && inp[i].Some? && inp[j].Some?
               ==> Coprime(inp[i].value, inp[j].value)
    requires forall i :: 0 <= i < |inp| && inp[i].Some? ==> inp[i].value > 0
    requires |ns| == |Buses(inp)| && forall k :: 0 <= k < |ns| ==> ns[k] == Buses(inp)[k].1
    ensures PairwiseCoprime(ns) && AllPositive(ns)
  {
    var bs := Buses(inp);
    forall k, l | 0 <= k < |ns| && 0 <= l < |ns| && k != l
      ensures Coprime(ns[k], ns[l])
    {
      assert bs[k].0 != bs[l].0;
    }
  }

  lemma OffsetResidue(r: int, m: int, i: int, n: int)
    requires n > 0 && r % n == (m - i) % n
    ensures (r - m + i) % n == 0
  {
    var a := m - i;
    assert r == n * (r / n) + r % n;
    assert a == n * (a / n) + a % n;
    assert r - m + i == n * (r / n - a / n);
    MulModZero(n, r / n - a / n);
  }
}
