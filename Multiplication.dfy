/** `Polynomial.multiply` as a value: one partial product per term of the
    second operand, accumulated through the merge of `add`. */
module Multiplication {
  import opened Terms
  import opened TermLists
  import opened Addition

  /** The partial product of `a` with the single term `u`, in the order of
      `a`: the list the constructor stores after reading the lines `multiply`
      writes for `u`. */
  function Scale(a: seq<Term>, u: Term): (r: seq<Term>)
    ensures |r| == |a|
    ensures forall i :: 0 <= i < |a| ==> r[i] == Times(u, a[i])
    decreases |a|
  {
    if a == [] then [] else [Times(u, a[0])] + Scale(a[1..], u)
  }

  /** The monomial product of two terms, as one line `multiply` writes. */
  function Times(u: Term, s: Term): (r: Term)
    ensures r.degree == u.degree + s.degree
  {
    Term(u.coeff * s.coeff, u.degree + s.degree)
  }

  /** The partial product grows by one term per inner step of `multiply`. */
  lemma ScaleSnoc(a: seq<Term>, u: Term, s: Term)
    ensures Scale(a + [s], u) == Scale(a, u) + [Times(u, s)]
  {
    var l, r := Scale(a + [s], u), Scale(a, u) + [Times(u, s)];
    assert forall i :: 0 <= i < |l| ==> l[i] == r[i];
  }

  /** A partial product of an ascending list is ascending, and of a list
      without zero coefficients by a nonzero term has none. */
  lemma ScaleCanonical(a: seq<Term>, u: Term)
    requires StrictlyAscending(a)
    ensures StrictlyAscending(Scale(a, u))
    ensures NoZeroCoeff(a) && u.coeff != 0.0 ==> Canonical(Scale(a, u))
  {
    ScaleAscending(a, u);
    if NoZeroCoeff(a) && u.coeff != 0.0 {
      ScaleNoZero(a, u);
    }
  }

  lemma ScaleAscending(a: seq<Term>, u: Term)
    requires StrictlyAscending(a)
    ensures StrictlyAscending(Scale(a, u))
  {
    var s := Scale(a, u);
    assert forall i :: 0 <= i < |s| ==> s[i].degree == u.degree + a[i].degree;
  }

  lemma ScaleNoZero(a: seq<Term>, u: Term)
    requires NoZeroCoeff(a) && u.coeff != 0.0
    ensures NoZeroCoeff(Scale(a, u))
  {
    var s := Scale(a, u);
    forall i | 0 <= i < |s|
      ensures s[i].coeff != 0.0
    {
      NonzeroProduct(u.coeff, a[i].coeff);
    }
  }

  lemma NonzeroProduct(x: real, y: real)
    requires x != 0.0 && y != 0.0
    ensures x * y != 0.0
  {
  }

  /** `a.multiply(b)`: starting from the zero polynomial, the partial
      product for each term of `b` in turn, front first, is added to the
      running result. */
  function Product(a: seq<Term>, b: seq<Term>): (r: seq<Term>)
    ensures a == [] || b == [] ==> r == []
    decreases |b|
  {
    if b == [] then [] else Merge(Product(a, b[..|b| - 1]), Scale(a, b[|b| - 1]))
  }

  /** The running result after one more outer step of `multiply`. */
  lemma ProductSnoc(a: seq<Term>, b: seq<Term>, k: nat)
    requires k < |b|
    ensures Product(a, b[..k + 1]) == Merge(Product(a, b[..k]), Scale(a, b[k]))
  {
    assert b[..k + 1][..k] == b[..k];
  }

  /** The product `c1 * c2` of two terms if their degrees add up to `d`. */
  function Pair(u: Term, s: Term, d: nat): real {
    if u.degree + s.degree == d then u.coeff * s.coeff else 0.0
  }

  /** The sum of `Pair(u, s, d)` over the terms `s` of `a`. */
  function Row(a: seq<Term>, u: Term, d: nat): real
    decreases |a|
  {
    if a == [] then 0.0 else Pair(u, a[0], d) + Row(a[1..], u, d)
  }

  /** The reference coefficient of the product at degree `d`: the sum of
      `c1 * c2` over all pairs of a term of `b` and a term of `a` whose
      degrees add up to `d`. */
  function Conv(a: seq<Term>, b: seq<Term>, d: nat): real
    decreases |b|
  {
    if b == [] then 0.0 else Row(a, b[0], d) + Conv(a, b[1..], d)
  }

  lemma {:induction false} ScaleCoeff(a: seq<Term>, u: Term, d: nat)
    ensures Coeff(Scale(a, u), d) == Row(a, u, d)
    decreases |a|
  {
    if a != [] {
      ScaleCoeff(a[1..], u, d);
      CoeffCons(Times(u, a[0]), Scale(a[1..], u), d);
    }
  }

  lemma {:induction false} ConvSnoc(a: seq<Term>, b: seq<Term>, u: Term, d: nat)
    ensures Conv(a, b + [u], d) == Conv(a, b, d) + Row(a, u, d)
    decreases |b|
  {
    if b == [] {
      assert [u][1..] == [];
    } else {
      assert (b + [u])[1..] == b[1..] + [u];
      ConvSnoc(a, b[1..], u, d);
    }
  }

  /** At every degree the product's coefficient is the sum of `c1 * c2` over
      the term pairs whose degrees add up to it. */
  lemma {:induction false} ProductCoeff(a: seq<Term>, b: seq<Term>, d: nat)
    ensures Coeff(Product(a, b), d) == Conv(a, b, d)
    decreases |b|
  {
    if b != [] {
      ProductCoeff(a, b[..|b| - 1], d);
      MergeCoeff(Product(a, b[..|b| - 1]), Scale(a, b[|b| - 1]), d);
      ScaleCoeff(a, b[|b| - 1], d);
      ConvSnoc(a, b[..|b| - 1], b[|b| - 1], d);
      assert b[..|b| - 1] + [b[|b| - 1]] == b;
    }
  }

  /** The product of canonical operands is canonical: strictly ascending,
      cancelled degrees absent. */
  lemma {:induction false} ProductCanonical(a: seq<Term>, b: seq<Term>)
    requires Canonical(a) && Canonical(b)
    ensures Canonical(Product(a, b))
    decreases |b|
  {
    if b != [] {
      CanonicalPrefix(b, |b| - 1);
      ProductCanonical(a, b[..|b| - 1]);
      ScaleCanonical(a, b[|b| - 1]);
      MergeCanonical(Product(a, b[..|b| - 1]), Scale(a, b[|b| - 1]));
    }
  }

  lemma {:induction false} RowOfEmpty(b: seq<Term>, d: nat)
    ensures Conv([], b, d) == 0.0
    decreases |b|
  {
    if b != [] {
      RowOfEmpty(b[1..], d);
    }
  }

  /** The sum of `Pair(s, u, d)` over the terms `s` of `a`, which is the row
      of `u` read the other way round. */
  lemma {:induction false} RowSwap(a: seq<Term>, u: Term, d: nat, b: seq<Term>)
    ensures Conv([u] + b, a, d) == Row(a, u, d) + Conv(b, a, d)
    decreases |a|
  {
    if a != [] {
      assert ([u] + b)[1..] == b;
      assert Row([u] + b, a[0], d) == Pair(a[0], u, d) + Row(b, a[0], d);
      assert Pair(a[0], u, d) == Pair(u, a[0], d);
      RowSwap(a[1..], u, d, b);
    }
  }

  /** The reference coefficient is symmetric in the two operands. */
  lemma {:induction false} ConvSymmetric(a: seq<Term>, b: seq<Term>, d: nat)
    ensures Conv(a, b, d) == Conv(b, a, d)
    decreases |b|
  {
    if b == [] {
      RowOfEmpty(a, d);
    } else {
      ConvSymmetric(a, b[1..], d);
      RowSwap(a, b[0], d, b[1..]);
      assert [b[0]] + b[1..] == b;
    }
  }

  /** What `multiply` promises about its result: each coefficient is the
      sum of pairwise products, and canonical operands give a canonical
      product. */
  lemma ProductMeaning(a: seq<Term>, b: seq<Term>)
    ensures forall d: nat :: Coeff(Product(a, b), d) == Conv(a, b, d)
    ensures Canonical(a) && Canonical(b) ==> Canonical(Product(a, b))
  {
    forall d: nat
      ensures Coeff(Product(a, b), d) == Conv(a, b, d)
    {
      ProductCoeff(a, b, d);
    }
    if Canonical(a) && Canonical(b) {
      ProductCanonical(a, b);
    }
  }

  /** Multiplication of canonical operands is commutative, term for term. */
  lemma ProductCommutes(a: seq<Term>, b: seq<Term>)
    requires Canonical(a) && Canonical(b)
    ensures Product(a, b) == Product(b, a)
  {
    ProductCanonical(a, b);
    ProductCanonical(b, a);
    forall d: nat
      ensures Coeff(Product(a, b), d) == Coeff(Product(b, a), d)
    {
      ProductCoeff(a, b, d);
      ProductCoeff(b, a, d);
      ConvSymmetric(a, b, d);
    }
    CanonicalUnique(Product(a, b), Product(b, a));
  }
}
