/** `Polynomial.add` as a value: the merge of two ascending term lists. */
module Addition {
  import opened Terms
  import opened TermLists

  /** The list `add` builds behind its dummy head: walk both lists from the
      front; at a shared degree emit the summed term unless the sum is zero;
      otherwise emit the term of smaller degree; once one list is exhausted,
      copy the rest of the other. */
  function Merge(a: seq<Term>, b: seq<Term>): (r: seq<Term>)
    ensures a == [] ==> r == b
    ensures b == [] ==> r == a
    decreases |a| + |b|
  {
    if a == [] then b
    else if b == [] then a
    else if a[0].degree == b[0].degree then
      var c := a[0].coeff + b[0].coeff;
      if c == 0.0 then Merge(a[1..], b[1..])
      else [Term(c, a[0].degree)] + Merge(a[1..], b[1..])
    else if a[0].degree < b[0].degree then [a[0]] + Merge(a[1..], b)
    else [b[0]] + Merge(a, b[1..])
  }

  /** At every degree, the sum's coefficient is the sum of the operands'
      coefficients (for any lists, ordered or not). */
  lemma {:induction false} MergeCoeff(a: seq<Term>, b: seq<Term>, d: nat)
    ensures Coeff(Merge(a, b), d) == Coeff(a, d) + Coeff(b, d)
    decreases |a| + |b|
  {
    if a != [] && b != [] {
      if a[0].degree == b[0].degree {
        var c := a[0].coeff + b[0].coeff;
        MergeCoeff(a[1..], b[1..], d);
        if c != 0.0 {
          CoeffCons(Term(c, a[0].degree), Merge(a[1..], b[1..]), d);
        }
      } else if a[0].degree < b[0].degree {
        MergeCoeff(a[1..], b, d);
        CoeffCons(a[0], Merge(a[1..], b), d);
      } else {
        MergeCoeff(a, b[1..], d);
        CoeffCons(b[0], Merge(a, b[1..]), d);
      }
    }
  }

  /** The sum has no degree below those of its operands. */
  lemma {:induction false} MergeAbove(a: seq<Term>, b: seq<Term>, k: int)
    requires Above(a, k) && Above(b, k)
    ensures Above(Merge(a, b), k)
    decreases |a| + |b|
  {
    if a != [] && b != [] {
      if a[0].degree == b[0].degree {
        MergeAbove(a[1..], b[1..], k);
      } else if a[0].degree < b[0].degree {
        MergeAbove(a[1..], b, k);
      } else {
        MergeAbove(a, b[1..], k);
      }
    }
  }

  /** `add` preserves the ordering: the merge of two strictly ascending lists
      is strictly ascending, so each degree occurs at most once. */
  lemma {:induction false} MergeAscending(a: seq<Term>, b: seq<Term>)
    requires StrictlyAscending(a) && StrictlyAscending(b)
    ensures StrictlyAscending(Merge(a, b))
    decreases |a| + |b|
  {
    if a != [] && b != [] {
      TailAbove(a);
      TailAbove(b);
      if a[0].degree == b[0].degree {
        MergeAscending(a[1..], b[1..]);
        MergeAbove(a[1..], b[1..], a[0].degree);
        if a[0].coeff + b[0].coeff != 0.0 {
          ConsAscending(Term(a[0].coeff + b[0].coeff, a[0].degree), Merge(a[1..], b[1..]));
        }
      } else if a[0].degree < b[0].degree {
        MergeAscending(a[1..], b);
        MergeAbove(a[1..], b, a[0].degree);
        ConsAscending(a[0], Merge(a[1..], b));
      } else {
        MergeAscending(a, b[1..]);
        MergeAbove(a, b[1..], b[0].degree);
        ConsAscending(b[0], Merge(a, b[1..]));
      }
    }
  }

  /** A combined term that cancels is dropped, and other terms are copied, so
      the sum of lists without zero coefficients has none. */
  lemma {:induction false} MergeNoZero(a: seq<Term>, b: seq<Term>)
    requires NoZeroCoeff(a) && NoZeroCoeff(b)
    ensures NoZeroCoeff(Merge(a, b))
    decreases |a| + |b|
  {
    if a != [] && b != [] {
      assert NoZeroCoeff(a[1..]) && NoZeroCoeff(b[1..]);
      if a[0].degree == b[0].degree {
        MergeNoZero(a[1..], b[1..]);
      } else if a[0].degree < b[0].degree {
        MergeNoZero(a[1..], b);
      } else {
        MergeNoZero(a, b[1..]);
      }
    }
  }

  /** What `add` promises about its result: coefficients add at every
      degree, and canonical operands give a canonical sum. */
  lemma MergeMeaning(a: seq<Term>, b: seq<Term>)
    ensures forall d: nat :: Coeff(Merge(a, b), d) == Coeff(a, d) + Coeff(b, d)
    ensures Canonical(a) && Canonical(b) ==> Canonical(Merge(a, b))
  {
    forall d: nat
      ensures Coeff(Merge(a, b), d) == Coeff(a, d) + Coeff(b, d)
    {
      MergeCoeff(a, b, d);
    }
    if Canonical(a) && Canonical(b) {
      MergeCanonical(a, b);
    }
  }

  /** The sum of two canonical lists is canonical. */
  lemma MergeCanonical(a: seq<Term>, b: seq<Term>)
    requires Canonical(a) && Canonical(b)
    ensures Canonical(Merge(a, b))
  {
    MergeAscending(a, b);
    MergeNoZero(a, b);
  }

  /** A degree stored in both operands: the sum holds the one term with the
      summed coefficient, or no term of that degree when the sum is 0. */
  lemma AddSharedDegree(a: seq<Term>, b: seq<Term>, i: nat, j: nat)
    requires Canonical(a) && Canonical(b)
    requires i < |a| && j < |b| && a[i].degree == b[j].degree
    ensures var m, c, d := Merge(a, b), a[i].coeff + b[j].coeff, a[i].degree;
      && (c == 0.0 ==> forall k :: 0 <= k < |m| ==> m[k].degree != d)
      && (c != 0.0 ==> exists k :: 0 <= k < |m| && m[k] == Term(c, d))
      && (forall k, l :: 0 <= k < l < |m| && m[k].degree == d ==> m[l].degree != d)
  {
    var m, d := Merge(a, b), a[i].degree;
    MergeCanonical(a, b);
    MergeCoeff(a, b, d);
    CoeffCanonical(a, d);
    CoeffCanonical(b, d);
    CoeffCanonical(m, d);
  }

  /** A degree stored in only one operand: its term is copied into the sum
      unchanged. */
  lemma AddUnsharedDegree(a: seq<Term>, b: seq<Term>, i: nat)
    requires Canonical(a) && Canonical(b) && i < |a|
    requires forall j :: 0 <= j < |b| ==> b[j].degree != a[i].degree
    ensures exists k :: 0 <= k < |Merge(a, b)| && Merge(a, b)[k] == a[i]
    ensures exists k :: 0 <= k < |Merge(b, a)| && Merge(b, a)[k] == a[i]
  {
    var m, d := Merge(a, b), a[i].degree;
    MergeCanonical(a, b);
    MergeCoeff(a, b, d);
    CoeffCanonical(a, d);
    CoeffOfAbsent(b, d);
    CoeffCanonical(m, d);
    var k :| 0 <= k < |m| && m[k].degree == d;
    assert m[k] == a[i];
    MergeCommutes(a, b);
  }

  /** Addition is commutative, term for term. */
  lemma {:induction false} MergeCommutes(a: seq<Term>, b: seq<Term>)
    ensures Merge(a, b) == Merge(b, a)
    decreases |a| + |b|
  {
    if a != [] && b != [] {
      if a[0].degree == b[0].degree {
        MergeCommutes(a[1..], b[1..]);
        assert a[0].coeff + b[0].coeff == b[0].coeff + a[0].coeff;
      } else if a[0].degree < b[0].degree {
        MergeCommutes(a[1..], b);
      } else {
        MergeCommutes(a, b[1..]);
      }
    }
  }

  /** The term list with every coefficient negated. */
  function Negated(a: seq<Term>): (r: seq<Term>)
    ensures |r| == |a|
    ensures forall i :: 0 <= i < |a| ==> r[i] == Term(-a[i].coeff, a[i].degree)
    decreases |a|
  {
    if a == [] then [] else [Term(-a[0].coeff, a[0].degree)] + Negated(a[1..])
  }

  /** Adding a polynomial to its negation cancels every term and gives the
      zero polynomial. */
  lemma {:induction false} MergeNegation(a: seq<Term>)
    ensures Merge(a, Negated(a)) == []
    decreases |a|
  {
    if a != [] {
      var n := Negated(a);
      assert n[1..] == Negated(a[1..]);
      MergeNegation(a[1..]);
    }
  }
}
