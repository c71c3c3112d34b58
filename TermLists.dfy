/** The term list a polynomial stores (the chain of `Node`s in
    Polynomial.java, front node first), its representation invariant, and
    the abstract view of it as "the coefficient at degree d". */
module TermLists {
  import opened Terms

  /** `s` written back to front. */
  function Reversed<T>(s: seq<T>): (r: seq<T>)
    ensures |r| == |s|
    decreases |s|
  {
    if s == [] then [] else [s[|s| - 1]] + Reversed(s[..|s| - 1])
  }

  lemma {:induction false} ReversedAt<T>(s: seq<T>, i: nat)
    requires i < |s|
    ensures Reversed(s)[i] == s[|s| - 1 - i]
    decreases |s|
  {
    if i > 0 {
      ReversedAt(s[..|s| - 1], i - 1);
    }
  }

  /** Reversing twice gives back the original sequence. */
  lemma ReversedReversed<T>(s: seq<T>)
    ensures Reversed(Reversed(s)) == s
  {
    forall i | 0 <= i < |s|
      ensures Reversed(Reversed(s))[i] == s[i]
    {
      ReversedAt(Reversed(s), i);
      ReversedAt(s, |s| - 1 - i);
    }
  }

  /** Degrees strictly increase from the front: the order the polynomial
      stores its terms in. */
  ghost predicate StrictlyAscending(s: seq<Term>) {
    forall i, j :: 0 <= i < j < |s| ==> s[i].degree < s[j].degree
  }

  /** Degrees strictly decrease: the order the input lines come in. */
  ghost predicate StrictlyDescending(s: seq<Term>) {
    forall i, j :: 0 <= i < j < |s| ==> s[i].degree > s[j].degree
  }

  ghost predicate NoZeroCoeff(s: seq<Term>) {
    forall i :: 0 <= i < |s| ==> s[i].coeff != 0.0
  }

  /** The representation invariant: strictly ascending degrees (so no degree
      twice) and no zero coefficient. */
  ghost predicate Canonical(s: seq<Term>) {
    StrictlyAscending(s) && NoZeroCoeff(s)
  }

  /** A prefix of a canonical list is canonical. */
  lemma CanonicalPrefix(s: seq<Term>, n: nat)
    requires Canonical(s) && n <= |s|
    ensures Canonical(s[..n])
  {
    var p := s[..n];
    assert forall i :: 0 <= i < n ==> p[i] == s[i];
  }

  /** Every degree in `s` exceeds `k`. */
  ghost predicate Above(s: seq<Term>, k: int) {
    forall i :: 0 <= i < |s| ==> k < s[i].degree
  }

  /** Prepending a term below every degree of an ascending list keeps it
      ascending. */
  lemma ConsAscending(t: Term, s: seq<Term>)
    requires StrictlyAscending(s) && Above(s, t.degree)
    ensures StrictlyAscending([t] + s)
  {
    var r := [t] + s;
    forall i, j | 0 <= i < j < |r|
      ensures r[i].degree < r[j].degree
    {
      assert r[j] == s[j - 1];
      if i > 0 {
        assert r[i] == s[i - 1];
      }
    }
  }

  /** The terms of an ascending list after the front lie above the front. */
  lemma TailAbove(s: seq<Term>)
    requires StrictlyAscending(s) && s != []
    ensures StrictlyAscending(s[1..]) && Above(s[1..], s[0].degree)
  {
    forall i | 0 <= i < |s| - 1
      ensures s[0].degree < s[1..][i].degree
    {
      assert s[1..][i] == s[i + 1];
    }
  }

  /** Storing strictly descending input back to front gives a strictly
      ascending list with the same terms, so an input without zero
      coefficients gives a canonical list. */
  lemma {:induction false} ReversedDescendingIsAscending(lines: seq<Term>)
    requires StrictlyDescending(lines)
    ensures StrictlyAscending(Reversed(lines))
    ensures NoZeroCoeff(lines) ==> Canonical(Reversed(lines))
  {
    var r := Reversed(lines);
    var n := |lines|;
    forall i, j | 0 <= i < j < n
      ensures r[i].degree < r[j].degree
    {
      ReversedAt(lines, i);
      ReversedAt(lines, j);
    }
    if NoZeroCoeff(lines) {
      forall i | 0 <= i < n
        ensures r[i].coeff != 0.0
      {
        ReversedAt(lines, i);
      }
    }
  }

  /** The coefficient of `x^d`: the sum of the coefficients of the stored
      terms of degree `d` (at most one in a canonical list). */
  function Coeff(s: seq<Term>, d: nat): real
    decreases |s|
  {
    if s == [] then 0.0
    else (if s[0].degree == d then s[0].coeff else 0.0) + Coeff(s[1..], d)
  }

  /** Prepending a term adds its coefficient at its own degree only. */
  lemma CoeffCons(t: Term, s: seq<Term>, d: nat)
    ensures Coeff([t] + s, d) == (if t.degree == d then t.coeff else 0.0) + Coeff(s, d)
  {
    assert ([t] + s)[1..] == s;
  }

  /** No term of degree `d` means coefficient 0 at `d`. */
  lemma {:induction false} CoeffOfAbsent(s: seq<Term>, d: nat)
    requires forall k :: 0 <= k < |s| ==> s[k].degree != d
    ensures Coeff(s, d) == 0.0
    decreases |s|
  {
    if s != [] {
      assert s[0].degree != d;
      CoeffOfAbsent(s[1..], d);
    }
  }

  /** In an ascending list, the coefficient at a stored term's degree is that
      term's coefficient. */
  lemma {:induction false} CoeffOfPresent(s: seq<Term>, k: nat)
    requires StrictlyAscending(s) && k < |s|
    ensures Coeff(s, s[k].degree) == s[k].coeff
    decreases |s|
  {
    TailAbove(s);
    if k == 0 {
      CoeffOfAbsent(s[1..], s[0].degree);
    } else {
      assert s[1..][k - 1] == s[k];
      CoeffOfPresent(s[1..], k - 1);
    }
  }

  /** In a canonical list the coefficient at `d` is nonzero exactly when a
      term of degree `d` is stored, and then it is that term's coefficient. */
  lemma CoeffCanonical(s: seq<Term>, d: nat)
    requires Canonical(s)
    ensures Coeff(s, d) != 0.0 <==> exists k :: 0 <= k < |s| && s[k].degree == d
    ensures forall k :: 0 <= k < |s| && s[k].degree == d ==> s[k].coeff == Coeff(s, d)
  {
    forall k | 0 <= k < |s| && s[k].degree == d
      ensures s[k].coeff == Coeff(s, d)
    {
      CoeffOfPresent(s, k);
    }
    if forall k :: 0 <= k < |s| ==> s[k].degree != d {
      CoeffOfAbsent(s, d);
    }
  }

  /** A canonical list is determined by its coefficients: two canonical lists
      with the same coefficient at every degree are equal, term for term. */
  lemma {:induction false} CanonicalUnique(s: seq<Term>, t: seq<Term>)
    requires Canonical(s) && Canonical(t)
    requires forall d: nat :: Coeff(s, d) == Coeff(t, d)
    ensures s == t
    decreases |s| + |t|
  {
    if s != [] || t != [] {
      // the front terms of both lists sit at the lowest degree of either
      var d0 := if s == [] then t[0].degree
                else if t == [] then s[0].degree
                else if s[0].degree <= t[0].degree then s[0].degree
                else t[0].degree;
      if s != [] {
        TailAbove(s);
      }
      if t != [] {
        TailAbove(t);
      }
      CoeffCanonical(s, d0);
      CoeffCanonical(t, d0);
      var ks :| 0 <= ks < |s| && s[ks].degree == d0;
      var kt :| 0 <= kt < |t| && t[kt].degree == d0;
      assert ks == 0 && kt == 0;
      assert s[0] == t[0];
      forall d: nat
        ensures Coeff(s[1..], d) == Coeff(t[1..], d)
      {
        assert Coeff(s, d) == Coeff(t, d);
      }
      CanonicalUnique(s[1..], t[1..]);
      assert s == [s[0]] + s[1..];
      assert t == [t[0]] + t[1..];
    }
  }
}
