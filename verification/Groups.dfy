// Abelian groups as records of operations, integer multiples, and a concrete instance.
module Groups {
  import opened Arithmetic
  /** The operations of a group; `double(p)` is `add(p, p)`. */
  datatype Group<!T> = Group(zero: T, add: (T, T) -> T, neg: T -> T) {
    function Double(x: T): T {
      add(x, x)
    }

    function Sub(x: T, y: T): T {
      add(x, neg(y))
    }
  }

  ghost predicate AssociatesAt<T>(g: Group<T>, x: T, y: T, z: T) {
    g.add(g.add(x, y), z) == g.add(x, g.add(y, z))
  }

  ghost predicate CommutesAt<T>(g: Group<T>, x: T, y: T) {
    g.add(x, y) == g.add(y, x)
  }

  /** Identity and inverse laws at one element. */
  ghost predicate InvertsAt<T>(g: Group<T>, x: T) {
    g.add(g.zero, x) == x && g.add(x, g.neg(x)) == g.zero
  }

  ghost predicate IsAssociative<T(!new)>(g: Group<T>) {
    forall x: T, y: T, z: T :: AssociatesAt(g, x, y, z)
  }

  ghost predicate IsCommutative<T(!new)>(g: Group<T>) {
    forall x: T, y: T :: CommutesAt(g, x, y)
  }

  ghost predicate HasInverses<T(!new)>(g: Group<T>) {
    forall x: T :: InvertsAt(g, x)
  }

  ghost predicate IsAbelianGroup<T(!new)>(g: Group<T>) {
    IsAssociative(g) && IsCommutative(g) && HasInverses(g)
  }

  /** `[n]x` for any integer n. */
  ghost function Mul<T>(g: Group<T>, n: int, x: T): T
    decreases if n < 0 then -n else n
  {
    if n == 0 then g.zero
    else if n > 0 then g.add(Mul(g, n - 1, x), x)
    else g.add(Mul(g, n + 1, x), g.neg(x))
  }

  // ---- Group laws, one instance at a time ----

  lemma Associative<T(!new)>(g: Group<T>, x: T, y: T, z: T)
    requires IsAbelianGroup(g)
    ensures g.add(g.add(x, y), z) == g.add(x, g.add(y, z))
  {
    assert AssociatesAt(g, x, y, z);
  }

  lemma Commutative<T(!new)>(g: Group<T>, x: T, y: T)
    requires IsAbelianGroup(g)
    ensures g.add(x, y) == g.add(y, x)
  {
    assert CommutesAt(g, x, y);
  }

  lemma Identity<T(!new)>(g: Group<T>, x: T)
    requires IsAbelianGroup(g)
    ensures g.add(g.zero, x) == x && g.add(x, g.zero) == x
  {
    assert InvertsAt(g, x);
    Commutative(g, x, g.zero);
  }

  lemma Inverse<T(!new)>(g: Group<T>, x: T)
    requires IsAbelianGroup(g)
    ensures g.add(x, g.neg(x)) == g.zero && g.add(g.neg(x), x) == g.zero
  {
    assert InvertsAt(g, x);
    Commutative(g, x, g.neg(x));
  }

  lemma Cancel<T(!new)>(g: Group<T>, x: T, y: T)
    requires IsAbelianGroup(g)
    ensures g.add(g.add(x, y), g.neg(y)) == x && g.add(g.add(x, g.neg(y)), y) == x
  {
    hide IsAbelianGroup;
    Associative(g, x, y, g.neg(y));
    Associative(g, x, g.neg(y), y);
    Inverse(g, y);
    Identity(g, x);
  }

  /** Two summands with zero sum are each other's negatives. */
  lemma NegUnique<T(!new)>(g: Group<T>, x: T, y: T)
    requires IsAbelianGroup(g) && g.add(x, y) == g.zero
    ensures y == g.neg(x)
  {
    hide IsAbelianGroup;
    Cancel(g, y, x);
    Commutative(g, x, y);
    Identity(g, g.neg(x));
  }

  /** (w + x) + (y + z) = (w + y) + (x + z) */
  lemma ExchangeTerms<T(!new)>(g: Group<T>, w: T, x: T, y: T, z: T)
    requires IsAbelianGroup(g)
    ensures g.add(g.add(w, x), g.add(y, z)) == g.add(g.add(w, y), g.add(x, z))
  {
    hide IsAbelianGroup;
    Associative(g, w, x, g.add(y, z));
    Associative(g, x, y, z);
    Commutative(g, x, y);
    Associative(g, y, x, z);
    Associative(g, w, y, g.add(x, z));
  }

  lemma NegAdd<T(!new)>(g: Group<T>, x: T, y: T)
    requires IsAbelianGroup(g)
    ensures g.neg(g.add(x, y)) == g.add(g.neg(x), g.neg(y))
  {
    hide IsAbelianGroup;
    ExchangeTerms(g, x, y, g.neg(x), g.neg(y));
    Inverse(g, x);
    Inverse(g, y);
    Identity(g, g.zero);
    NegUnique(g, g.add(x, y), g.add(g.neg(x), g.neg(y)));
  }

  lemma NegZero<T(!new)>(g: Group<T>)
    requires IsAbelianGroup(g)
    ensures g.neg(g.zero) == g.zero
  {
    hide IsAbelianGroup;
    Identity(g, g.zero);
    NegUnique(g, g.zero, g.zero);
  }

  // ---- Laws of multiples ----

  lemma MulSuccessor<T(!new)>(g: Group<T>, n: int, x: T)
    requires IsAbelianGroup(g)
    ensures Mul(g, n + 1, x) == g.add(Mul(g, n, x), x)
    ensures Mul(g, n - 1, x) == g.add(Mul(g, n, x), g.neg(x))
  {
    hide IsAbelianGroup;
    if n < 0 {
      Cancel(g, Mul(g, n + 1, x), x);
    }
    if n > 0 {
      Cancel(g, Mul(g, n - 1, x), x);
    }
  }

  lemma {:induction false} MulAdd<T(!new)>(g: Group<T>, m: int, n: int, x: T)
    requires IsAbelianGroup(g)
    ensures Mul(g, m + n, x) == g.add(Mul(g, m, x), Mul(g, n, x))
    decreases if n < 0 then -n else n
  {
    hide IsAbelianGroup;
    if n == 0 {
      Identity(g, Mul(g, m, x));
    } else if n > 0 {
      MulAdd(g, m, n - 1, x);
      MulSuccessor(g, m + n - 1, x);
      Associative(g, Mul(g, m, x), Mul(g, n - 1, x), x);
    } else {
      MulAdd(g, m, n + 1, x);
      MulSuccessor(g, m + n + 1, x);
      Associative(g, Mul(g, m, x), Mul(g, n + 1, x), g.neg(x));
    }
  }

  lemma MulNeg<T(!new)>(g: Group<T>, n: int, x: T)
    requires IsAbelianGroup(g)
    ensures Mul(g, -n, x) == g.neg(Mul(g, n, x))
  {
    hide IsAbelianGroup;
    MulAdd(g, n, -n, x);
    assert n + -n == 0;
    NegUnique(g, Mul(g, n, x), Mul(g, -n, x));
  }

  lemma MulOne<T(!new)>(g: Group<T>, x: T)
    requires IsAbelianGroup(g)
    ensures Mul(g, 1, x) == x && Mul(g, 2, x) == g.Double(x)
  {
    hide IsAbelianGroup;
    assert Mul(g, 1, x) == g.add(Mul(g, 0, x), x);
    Identity(g, x);
    assert Mul(g, 2, x) == g.add(Mul(g, 1, x), x);
  }

  lemma MulDouble<T(!new)>(g: Group<T>, n: int, x: T)
    requires IsAbelianGroup(g)
    ensures g.Double(Mul(g, n, x)) == Mul(g, 2 * n, x)
  {
    hide IsAbelianGroup;
    MulAdd(g, n, n, x);
  }

  /** [m]([n]x) = [mn]x */
  lemma {:induction false} MulMul<T(!new)>(g: Group<T>, m: int, n: int, x: T)
    requires IsAbelianGroup(g)
    ensures Mul(g, m, Mul(g, n, x)) == Mul(g, m * n, x)
    decreases if m < 0 then -m else m
  {
    hide IsAbelianGroup;
    if m > 0 {
      MulMul(g, m - 1, n, x);
      MulAdd(g, (m - 1) * n, n, x);
      assert (m - 1) * n + n == m * n;
    } else if m < 0 {
      MulMul(g, m + 1, n, x);
      MulNeg(g, n, x);
      MulAdd(g, (m + 1) * n, -n, x);
      assert (m + 1) * n + -n == m * n;
    }
  }

  /** The multiples of an element of order two are itself and zero. */
  lemma {:induction false} MulOrderTwo<T(!new)>(g: Group<T>, n: nat, x: T)
    requires IsAbelianGroup(g) && g.Double(x) == g.zero
    ensures Mul(g, n, x) == if n % 2 == 0 then g.zero else x
  {
    hide IsAbelianGroup;
    if n != 0 {
      MulOrderTwo(g, n - 1, x);
      Identity(g, x);
    }
  }

  lemma MulNothing<T>(g: Group<T>, x: T)
    ensures Mul(g, 0, x) == g.zero
  {
  }

  /** [n](x + y) = [n]x + [n]y */
  lemma {:induction false} MulSum<T(!new)>(g: Group<T>, n: nat, x: T, y: T)
    requires IsAbelianGroup(g)
    ensures Mul(g, n, g.add(x, y)) == g.add(Mul(g, n, x), Mul(g, n, y))
  {
    hide IsAbelianGroup;
    if n == 0 {
      Identity(g, g.zero);
    } else {
      MulSum(g, n - 1, x, y);
      ExchangeTerms(g, Mul(g, n - 1, x), Mul(g, n - 1, y), x, y);
    }
  }

  lemma MulZero<T(!new)>(g: Group<T>, n: int)
    requires IsAbelianGroup(g)
    ensures Mul(g, n, g.zero) == g.zero
  {
    hide IsAbelianGroup;
    MulMul(g, n, 0, g.zero);
    assert n * 0 == 0;
  }

  /** Multiples only depend on n modulo an order of x. */
  lemma MulModOrder<T(!new)>(g: Group<T>, n: int, order: int, x: T)
    requires IsAbelianGroup(g) && order > 0 && Mul(g, order, x) == g.zero
    ensures Mul(g, n, x) == Mul(g, n % order, x)
  {
    hide IsAbelianGroup;
    var q := n / order;
    assert n == q * order + n % order;
    MulAdd(g, q * order, n % order, x);
    MulMul(g, q, order, x);
    MulZero(g, q);
    Identity(g, Mul(g, n % order, x));
  }

  // ---- A concrete instance: Z_L x Z_4 ----

  /** L, the prime order of the base point. */
  const L: int := 0x800_00000000_0000000000000000_000000000016dcc8_0892809847fb4a31_2602e3a1d0be9603

  datatype Pair = Pair(prime: int, torsion: int)

  type Element = p: Pair | 0 <= p.prime < L && 0 <= p.torsion < 4 witness Pair(0, 0)

  function AddMod(x: int, y: int, m: int): (r: int)
    requires m > 0
    ensures 0 <= r < m
  {
    (x + y) % m
  }

  function AddElements(x: Element, y: Element): Element {
    Pair(AddMod(x.prime, y.prime, L), AddMod(x.torsion, y.torsion, 4))
  }

  function NegElement(x: Element): Element {
    Pair((L - x.prime) % L, (4 - x.torsion) % 4)
  }

  function ProductGroup(): Group<Element> {
    Group<Element>.Group(Pair(0, 0), (x: Element, y: Element) => AddElements(x, y), (x: Element) => NegElement(x))
  }

  lemma ModAddAssociative(x: int, y: int, z: int, m: int)
    requires 0 <= x < m && 0 <= y < m && 0 <= z < m
    ensures AddMod(AddMod(x, y, m), z, m) == AddMod(x, AddMod(y, z, m), m)
  {
    ModOnce(x + y, m);
    ModOnce(y + z, m);
    ModOnce((x + y) % m + z, m);
    ModOnce(x + (y + z) % m, m);
  }

  lemma ModOnce(x: int, m: int)
    requires 0 <= x < 2 * m
    ensures x % m == if x < m then x else x - m
  {
  }

  lemma ElementsAssociative(x: Element, y: Element, z: Element)
    ensures AddElements(AddElements(x, y), z) == AddElements(x, AddElements(y, z))
  {
    hide AddMod;
    ModAddAssociative(x.prime, y.prime, z.prime, L);
    ModAddAssociative(x.torsion, y.torsion, z.torsion, 4);
  }

  lemma ElementsInverse(x: Element)
    ensures AddElements(x, NegElement(x)) == Pair(0, 0) && AddElements(Pair(0, 0), x) == x
  {
    ModInverse(x.prime, L);
    ModInverse(x.torsion, 4);
  }

  lemma ModInverse(x: int, m: int)
    requires 0 <= x < m
    ensures (x + (m - x) % m) % m == 0 && (0 + x) % m == x
  {
    ModOnce(m - x, m);
    ModOnce(x + (m - x) % m, m);
    ModOnce(x, m);
  }

  lemma ProductIsAssociative()
    ensures IsAssociative(ProductGroup())
  {
    forall x: Element, y: Element, z: Element
      ensures AssociatesAt(ProductGroup(), x, y, z)
    {
      ElementsAssociative(x, y, z);
    }
  }

  lemma ProductIsCommutative()
    ensures IsCommutative(ProductGroup())
  {
  }

  lemma ProductHasInverses()
    ensures HasInverses(ProductGroup())
  {
    forall x: Element
      ensures InvertsAt(ProductGroup(), x)
    {
      ElementsInverse(x);
    }
  }

  /** The laws have a model: the group Z_L x Z_4 that the curve's rational points form. */
  lemma ProductGroupIsAbelian()
    ensures IsAbelianGroup(ProductGroup())
  {
    ProductIsAssociative();
    ProductIsCommutative();
    ProductHasInverses();
    hide IsAssociative, IsCommutative, HasInverses;
  }

  lemma NextMultiple(n: nat, t: nat, m: nat)
    requires n > 0 && 0 <= t < m
    ensures ((n - 1) * t % m + t) % m == n * t % m
  {
    var q, r := (n - 1) * t / m, (n - 1) * t % m;
    assert n * t == m * q + (r + t);
    ModOnce(r + t, m);
    if r + t < m {
      QuotientUnique(n * t, m, q, r + t);
    } else {
      QuotientUnique(n * t, m, q + 1, r + t - m);
    }
  }

  lemma NextElement(n: nat, x: Element)
    requires n > 0
    ensures AddElements(Pair((n - 1) * x.prime % L, (n - 1) * x.torsion % 4), x)
         == Pair(n * x.prime % L, n * x.torsion % 4)
  {
    NextMultiple(n, x.prime, L);
    NextMultiple(n, x.torsion, 4);
  }

  /** Multiples in that group are component-wise. */
  lemma {:induction false} ProductGroupMultiples(n: nat, x: Element)
    ensures Mul(ProductGroup(), n, x) == Pair(n * x.prime % L, n * x.torsion % 4)
  {
    hide AddElements;
    if n != 0 {
      ProductGroupMultiples(n - 1, x);
      NextElement(n, x);
    } else {
      assert 0 * x.prime == 0 && 0 * x.torsion == 0;
    }
  }
}
