/** Class `Polynomial` of Polynomial.java: a polynomial stored as a chain of
    term nodes, modelled as the sequence of their terms, front node first. */
module Poly {
  import opened Terms
  import opened TermLists
  import opened Addition
  import opened Multiplication
  import opened Evaluation
  import opened Rendering

  /** Appending a term at the back of the input puts it at the front of the
      reversed list. */
  lemma ReversedSnoc<T>(s: seq<T>, t: T)
    ensures Reversed(s + [t]) == [t] + Reversed(s)
  {
    assert (s + [t])[..|s|] == s;
  }

  /** A step of `add` at a degree both lists hold: the summed term is
      appended unless its coefficient is 0, and both lists advance. */
  lemma AdvanceBoth(a: seq<Term>, b: seq<Term>, i: nat, j: nat, acc: seq<Term>)
    requires i < |a| && j < |b| && a[i].degree == b[j].degree
    requires acc + Merge(a[i..], b[j..]) == Merge(a, b)
    ensures a[i].coeff + b[j].coeff == 0.0 ==>
      acc + Merge(a[i + 1..], b[j + 1..]) == Merge(a, b)
    ensures a[i].coeff + b[j].coeff != 0.0 ==>
      (acc + [Term(a[i].coeff + b[j].coeff, a[i].degree)]) + Merge(a[i + 1..], b[j + 1..]) == Merge(a, b)
  {
    var ra, rb := a[i..], b[j..];
    assert ra[0] == a[i] && rb[0] == b[j];
    assert ra[1..] == a[i + 1..] && rb[1..] == b[j + 1..];
    var t := Term(a[i].coeff + b[j].coeff, a[i].degree);
    if t.coeff != 0.0 {
      assert Merge(ra, rb) == [t] + Merge(ra[1..], rb[1..]);
      AppendAssoc(acc, t, Merge(a[i + 1..], b[j + 1..]));
    } else {
      assert Merge(ra, rb) == Merge(ra[1..], rb[1..]);
    }
  }

  /** A step of `add` that copies the front term of what is left of `a`:
      its degree is the smaller one, or `b` is used up. */
  lemma AdvanceLeft(a: seq<Term>, b: seq<Term>, i: nat, j: nat, acc: seq<Term>)
    requires i < |a| && j <= |b| && (j == |b| || a[i].degree < b[j].degree)
    requires acc + Merge(a[i..], b[j..]) == Merge(a, b)
    ensures (acc + [a[i]]) + Merge(a[i + 1..], b[j..]) == Merge(a, b)
  {
    assert a[i..] == [a[i]] + a[i + 1..];
    AppendAssoc(acc, a[i], Merge(a[i + 1..], b[j..]));
  }

  /** A step of `add` that copies the front term of what is left of `b`. */
  lemma AdvanceRight(a: seq<Term>, b: seq<Term>, i: nat, j: nat, acc: seq<Term>)
    requires i <= |a| && j < |b| && (i == |a| || b[j].degree < a[i].degree)
    requires acc + Merge(a[i..], b[j..]) == Merge(a, b)
    ensures (acc + [b[j]]) + Merge(a[i..], b[j + 1..]) == Merge(a, b)
  {
    assert b[j..] == [b[j]] + b[j + 1..];
    AppendAssoc(acc, b[j], Merge(a[i..], b[j + 1..]));
  }

  /** One step of the inner loop of `multiply`: the next line goes in front
      of the lines written so far. */
  lemma LinesAdvance(a: seq<Term>, m: nat, u: Term, lines: seq<Term>)
    requires m < |a|
    requires lines == Reversed(Scale(a[..m], u))
    ensures [Times(u, a[m])] + lines == Reversed(Scale(a[..m + 1], u))
  {
    assert a[..m + 1] == a[..m] + [a[m]];
    ScaleSnoc(a[..m], u, a[m]);
    ReversedSnoc(Scale(a[..m], u), Times(u, a[m]));
  }

  /** Regrouping the accumulator when `add` appends a term. The loop steps
      above call it so that the solver does not have to find this split of
      `acc + [t] + rest` among the sequence axioms by itself. */
  lemma AppendAssoc(acc: seq<Term>, t: Term, rest: seq<Term>)
    ensures acc + ([t] + rest) == (acc + [t]) + rest
  {
  }

  class Polynomial {
    /** The terms of the node chain, front node first. */
    var poly: seq<Term>

    /** `Polynomial()`: the zero polynomial, with no terms. */
    constructor ()
      ensures poly == []
    {
      poly := [];
    }

    /** `Polynomial(BufferedReader)`: each input line, a coefficient and a
        degree, becomes a new front node, so the terms end up in the reverse
        of the input order. Reading and parsing the text is not modelled:
        `lines` holds the parsed pairs, first line first. */
    constructor FromTerms(lines: seq<Term>)
      ensures poly == Reversed(lines)
      ensures StrictlyDescending(lines) ==> StrictlyAscending(poly)
      ensures StrictlyDescending(lines) && NoZeroCoeff(lines) ==> Canonical(poly)
    {
      poly := [];
      new;
      var k := 0;
      while k < |lines|
        invariant 0 <= k <= |lines|
        invariant poly == Reversed(lines[..k])
      {
        assert lines[..k + 1] == lines[..k] + [lines[k]];
        ReversedSnoc(lines[..k], lines[k]);
        poly := [lines[k]] + poly;
        k := k + 1;
      }
      assert lines[..k] == lines;
      if StrictlyDescending(lines) {
        ReversedDescendingIsAscending(lines);
      }
    }

    /** `add`: walks both lists from the front, building the sum behind a
        dummy head node; stores the sum in `p` and returns `p`. `this` is
        left as it was unless it is `p` itself. */
    method Add(p: Polynomial) returns (r: Polynomial)
      modifies p
      ensures r == p
      ensures p.poly == Merge(old(poly), old(p.poly))
      ensures this != p ==> poly == old(poly)
      ensures forall d: nat :: Coeff(p.poly, d) == Coeff(old(poly), d) + Coeff(old(p.poly), d)
      ensures Canonical(old(poly)) && Canonical(old(p.poly)) ==> Canonical(p.poly)
    {
      var a, b := poly, p.poly;
      var acc: seq<Term> := [];
      var i, j := 0, 0;
      while i < |a| && j < |b|
        invariant 0 <= i <= |a| && 0 <= j <= |b|
        invariant acc + Merge(a[i..], b[j..]) == Merge(a, b)
        modifies {}
        decreases |a| - i + |b| - j
      {
        if a[i].degree == b[j].degree {
          AdvanceBoth(a, b, i, j, acc);
          var t := Term(a[i].coeff + b[j].coeff, a[i].degree);
          i, j := i + 1, j + 1;
          if t.coeff != 0.0 {
            acc := acc + [t];
          }
        } else if a[i].degree < b[j].degree {
          AdvanceLeft(a, b, i, j, acc);
          acc := acc + [a[i]];
          i := i + 1;
        } else {
          AdvanceRight(a, b, i, j, acc);
          acc := acc + [b[j]];
          j := j + 1;
        }
      }
      while i < |a| && j == |b|
        invariant 0 <= i <= |a| && 0 <= j <= |b|
        invariant acc + Merge(a[i..], b[j..]) == Merge(a, b)
        modifies {}
        decreases |a| - i
      {
        AdvanceLeft(a, b, i, j, acc);
        acc := acc + [a[i]];
        i := i + 1;
      }
      while i == |a| && j < |b|
        invariant 0 <= i <= |a| && 0 <= j <= |b|
        invariant acc + Merge(a[i..], b[j..]) == Merge(a, b)
        modifies {}
        decreases |b| - j
      {
        AdvanceRight(a, b, i, j, acc);
        acc := acc + [b[j]];
        j := j + 1;
      }
      assert a[i..] == [] && b[j..] == [];
      assert acc == Merge(a, b);
      MergeMeaning(a, b);
      p.poly := acc;
      r := p;
    }

    /** `multiply`: for each term of `p`, front first, writes one line per
        term of `this` (in front of the lines so far), reads them back as a
        new polynomial and adds the running result to it. */
    method Multiply(p: Polynomial) returns (r: Polynomial)
      ensures fresh(r)
      ensures r.poly == Product(poly, p.poly)
      ensures forall d: nat :: Coeff(r.poly, d) == Conv(poly, p.poly, d)
      ensures Canonical(poly) && Canonical(p.poly) ==> Canonical(r.poly)
      ensures poly == old(poly) && p.poly == old(p.poly)
    {
      var a, b := poly, p.poly;
      var ret := new Polynomial();
      var k := 0;
      while k < |b|
        invariant 0 <= k <= |b|
        invariant fresh(ret)
        invariant ret.poly == Product(a, b[..k])
      {
        var t1 := b[k];
        var lines: seq<Term> := [];
        var m := 0;
        while m < |a|
          invariant 0 <= m <= |a|
          invariant lines == Reversed(Scale(a[..m], t1))
          invariant ret.poly == Product(a, b[..k])
        {
          LinesAdvance(a, m, t1, lines);
          lines := [Times(t1, a[m])] + lines;
          m := m + 1;
        }
        assert a[..m] == a;
        ReversedReversed(Scale(a, t1));
        var part := new Polynomial.FromTerms(lines);
        ProductSnoc(a, b, k);
        ret := ret.Add(part);
        k := k + 1;
      }
      assert b[..k] == b;
      ProductMeaning(a, b);
      r := ret;
    }

    /** `evaluate`: the sum over the terms of `coeff * Math.pow(x, degree)`. */
    method Evaluate(x: real) returns (sum: real)
      ensures sum == Eval(poly, x)
    {
      sum := 0.0;
      var i := 0;
      while i < |poly|
        invariant 0 <= i <= |poly|
        invariant sum + Eval(poly[i..], x) == Eval(poly, x)
      {
        TermValueIsPow(poly[i], x);
        assert poly[i..][1..] == poly[i + 1..];
        sum := sum + poly[i].coeff * Pow(x, poly[i].degree);
        i := i + 1;
      }
    }

    /** `toString`: "0" for no terms; otherwise the front term's string, with
        each later term's string and " + " put in front of it. */
    method ToString(show: real -> string) returns (s: string)
      ensures s == Render(poly, show)
      ensures poly == [] ==> s == "0"
      ensures poly != [] ==> s == Join(Reversed(TermStrings(poly, show)), " + ")
    {
      if poly == [] {
        return "0";
      }
      s := TermString(poly[0], show);
      var i := 1;
      while i < |poly|
        invariant 1 <= i <= |poly|
        invariant s == Joined(poly[..i], show)
      {
        assert poly[..i + 1][..i] == poly[..i];
        s := TermString(poly[i], show) + " + " + s;
        i := i + 1;
      }
      assert poly[..i] == poly;
    }
  }
}
