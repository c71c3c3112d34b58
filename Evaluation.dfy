/** `Polynomial.evaluate` as a value, and how it commutes with `add` and
    `multiply`. */
module Evaluation {
  import opened Terms
  import opened TermLists
  import opened Addition
  import opened Multiplication

  /** Real multiplication behind a function name. Stating the lemmas below
      with it lets equal factors give equal products by congruence alone,
      which keeps their proofs out of nonlinear arithmetic. */
  function Mul(p: real, q: real): real {
    p * q
  }

  /** `x^n`, with `x^0 == 1` also when `x == 0` (as `Math.pow` has it). */
  function Pow(x: real, n: nat): real
    decreases n
  {
    if n == 0 then 1.0 else x * Pow(x, n - 1)
  }

  /** The value `coeff * x^degree` of one term at `x`, one factor `x` per
      unit of degree. */
  function TermValue(t: Term, x: real): real
    decreases t.degree
  {
    if t.degree == 0 then t.coeff else Mul(x, TermValue(Term(t.coeff, t.degree - 1), x))
  }

  lemma Reassociate(x: real, c: real, p: real)
    ensures Mul(x, Mul(c, p)) == Mul(c, Mul(x, p))
  {
  }

  /** A term's value is its coefficient times `Math.pow(x, degree)`. */
  lemma {:induction false} TermValueIsPow(t: Term, x: real)
    ensures TermValue(t, x) == t.coeff * Pow(x, t.degree)
    decreases t.degree
  {
    if t.degree > 0 {
      TermValueIsPow(Term(t.coeff, t.degree - 1), x);
      Reassociate(x, t.coeff, Pow(x, t.degree - 1));
    }
  }

  lemma Distribute2(v: real, p: real, q: real)
    ensures Mul(v, p) + Mul(v, q) == Mul(v, p + q)
  {
  }

  /** Coefficients of a shared degree add up in the term's value. */
  lemma {:induction false} TermValueAdd(c1: real, c2: real, d: nat, x: real)
    ensures TermValue(Term(c1 + c2, d), x) == TermValue(Term(c1, d), x) + TermValue(Term(c2, d), x)
    decreases d
  {
    if d > 0 {
      TermValueAdd(c1, c2, d - 1, x);
      Distribute2(x, TermValue(Term(c1, d - 1), x), TermValue(Term(c2, d - 1), x));
    }
  }

  /** A term with coefficient 0 is worth 0 everywhere. */
  lemma {:induction false} TermValueZero(d: nat, x: real)
    ensures TermValue(Term(0.0, d), x) == 0.0
    decreases d
  {
    if d > 0 {
      TermValueZero(d - 1, x);
    }
  }

  /** Scaling a coefficient scales the term's value. */
  lemma {:induction false} TermValueScale(k: real, c: real, d: nat, x: real)
    ensures TermValue(Term(k * c, d), x) == Mul(k, TermValue(Term(c, d), x))
    decreases d
  {
    if d > 0 {
      TermValueScale(k, c, d - 1, x);
      Reassociate(x, k, TermValue(Term(c, d - 1), x));
    }
  }

  /** The sum over the stored terms of `coeff * x^degree`. */
  function Eval(s: seq<Term>, x: real): (r: real)
    ensures x == 0.0 ==> r == Coeff(s, 0)
    decreases |s|
  {
    if s == [] then 0.0 else TermValue(s[0], x) + Eval(s[1..], x)
  }

  lemma EvalCons(t: Term, s: seq<Term>, x: real)
    ensures Eval([t] + s, x) == TermValue(t, x) + Eval(s, x)
  {
    assert ([t] + s)[1..] == s;
  }

  /** The zero polynomial evaluates to 0 everywhere, and a lone term of
      degree 0 to its coefficient, even at `x == 0`. */
  lemma EvalBasics(c: real, x: real)
    ensures Eval([], x) == 0.0
    ensures Eval([Term(c, 0)], x) == c
  {
    EvalCons(Term(c, 0), [], x);
  }

  /** Evaluating a sum is the sum of the evaluations. */
  lemma {:induction false} EvalMerge(a: seq<Term>, b: seq<Term>, x: real)
    ensures Eval(Merge(a, b), x) == Eval(a, x) + Eval(b, x)
    decreases |a| + |b|
  {
    if a != [] && b != [] {
      if a[0].degree == b[0].degree {
        var c := a[0].coeff + b[0].coeff;
        EvalMerge(a[1..], b[1..], x);
        TermValueAdd(a[0].coeff, b[0].coeff, a[0].degree, x);
        if c == 0.0 {
          TermValueZero(a[0].degree, x);
        } else {
          EvalCons(Term(c, a[0].degree), Merge(a[1..], b[1..]), x);
        }
      } else if a[0].degree < b[0].degree {
        EvalMerge(a[1..], b, x);
        EvalCons(a[0], Merge(a[1..], b), x);
      } else {
        EvalMerge(a, b[1..], x);
        EvalCons(b[0], Merge(a, b[1..]), x);
      }
    }
  }

  /** Associativity, `x * (a * b) == (x * a) * b`, with each product passed
      in by name. */
  lemma MulAssoc(xab: real, xa: real, x: real, a: real, b: real, ab: real)
    requires xab == Mul(x, ab) && ab == Mul(a, b) && xa == Mul(x, a)
    ensures xab == Mul(xa, b)
  {
  }

  lemma TimesValueBase(c: real, s: Term, x: real)
    ensures TermValue(Times(Term(c, 0), s), x) == Mul(c, TermValue(s, x))
  {
    TermValueScale(c, s.coeff, s.degree, x);
    assert Times(Term(c, 0), s) == Term(c * s.coeff, s.degree);
  }

  /** The value of a product term is the product of the terms' values. */
  lemma {:induction false} TimesValue(u: Term, s: Term, x: real)
    ensures TermValue(Times(u, s), x) == Mul(TermValue(u, x), TermValue(s, x))
    decreases u.degree
  {
    if u.degree == 0 {
      TimesValueBase(u.coeff, s, x);
      assert u == Term(u.coeff, 0);
    } else {
      var u' := Term(u.coeff, u.degree - 1);
      TimesValue(u', s, x);
      assert Term(Times(u, s).coeff, Times(u, s).degree - 1) == Times(u', s);
      MulAssoc(TermValue(Times(u, s), x), TermValue(u, x), x,
            TermValue(u', x), TermValue(s, x), TermValue(Times(u', s), x));
    }
  }

  /** Factoring out a common factor, `v * a + v * b == v * (a + b)`, with
      each product and sum passed in by name. */
  lemma FactorSum(sum: real, va: real, vb: real, v: real, a: real, b: real, ab: real)
    requires sum == va + vb && va == Mul(v, a) && vb == Mul(v, b) && ab == a + b
    ensures sum == Mul(v, ab)
  {
  }

  /** A partial product evaluates to the term's value times the operand's. */
  lemma {:induction false} EvalScale(a: seq<Term>, u: Term, x: real)
    ensures Eval(Scale(a, u), x) == Mul(TermValue(u, x), Eval(a, x))
    decreases |a|
  {
    if a == [] {
      ZeroProduct(TermValue(u, x));
    } else {
      EvalScale(a[1..], u, x);
      assert Scale(a, u) == [Times(u, a[0])] + Scale(a[1..], u);
      EvalCons(Times(u, a[0]), Scale(a[1..], u), x);
      TimesValue(u, a[0], x);
      FactorSum(Eval(Scale(a, u), x), TermValue(Times(u, a[0]), x), Eval(Scale(a[1..], u), x),
             TermValue(u, x), TermValue(a[0], x), Eval(a[1..], x), Eval(a, x));
    }
  }

  lemma {:induction false} EvalSnoc(s: seq<Term>, t: Term, x: real)
    ensures Eval(s + [t], x) == Eval(s, x) + TermValue(t, x)
    decreases |s|
  {
    if s == [] {
      EvalCons(t, [], x);
    } else {
      assert (s + [t])[1..] == s[1..] + [t];
      EvalSnoc(s[1..], t, x);
    }
  }

  lemma ZeroProduct(e: real)
    ensures Mul(e, 0.0) == 0.0
  {
  }

  /** Distributivity from the right, `a * b' + v * a == a * (b' + v)`, with
      each product and sum passed in by name. */
  lemma DistributeRight(sum: real, ab': real, a: real, b: real, b': real, v: real)
    requires sum == ab' + Mul(v, a) && ab' == Mul(a, b') && b == b' + v
    ensures sum == Mul(a, b)
  {
  }

  /** The value after the last outer step of `multiply`: the running value
      plus the last term's value times the first operand's. */
  lemma EvalProductLast(a: seq<Term>, b: seq<Term>, x: real)
    requires b != []
    ensures Eval(Product(a, b), x)
         == Eval(Product(a, b[..|b| - 1]), x) + Mul(TermValue(b[|b| - 1], x), Eval(a, x))
  {
    EvalMerge(Product(a, b[..|b| - 1]), Scale(a, b[|b| - 1]), x);
    EvalScale(a, b[|b| - 1], x);
  }

  lemma EvalLast(b: seq<Term>, x: real)
    requires b != []
    ensures Eval(b, x) == Eval(b[..|b| - 1], x) + TermValue(b[|b| - 1], x)
  {
    EvalSnoc(b[..|b| - 1], b[|b| - 1], x);
    assert b[..|b| - 1] + [b[|b| - 1]] == b;
  }

  lemma {:induction false} EvalProductMul(a: seq<Term>, b: seq<Term>, x: real)
    ensures Eval(Product(a, b), x) == Mul(Eval(a, x), Eval(b, x))
    decreases |b|
  {
    if b == [] {
      ZeroProduct(Eval(a, x));
    } else {
      EvalProductMul(a, b[..|b| - 1], x);
      EvalProductLast(a, b, x);
      EvalLast(b, x);
      DistributeRight(Eval(Product(a, b), x), Eval(Product(a, b[..|b| - 1]), x), Eval(a, x),
                 Eval(b, x), Eval(b[..|b| - 1], x), TermValue(b[|b| - 1], x));
    }
  }

  /** Evaluating a product is the product of the evaluations. */
  lemma EvalProduct(a: seq<Term>, b: seq<Term>, x: real)
    ensures Eval(Product(a, b), x) == Eval(a, x) * Eval(b, x)
  {
    EvalProductMul(a, b, x);
  }
}
