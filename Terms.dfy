/** Terms of a single-variable polynomial: a coefficient and a degree
    (class `Term` in Polynomial.java), with its equality and its rendering. */
module Terms {

  /** The monomial `coeff * x^degree`. Java's `float` coefficient is modelled
      exactly as a `real`, its `int` degree as a `nat`. */
  datatype Term = Term(coeff: real, degree: nat)

  /** A possibly missing value: `None` stands for a `null` reference or an
      object that is not a `Term`. */
  datatype Option<+T> = None | Some(value: T)

  /** `Term.equals`: true exactly when the other object is a term with the
      same coefficient and the same degree. */
  function TermEquals(t: Term, other: Option<Term>): (r: bool)
    ensures r <==> other == Some(t)
  {
    other.Some? && t.coeff == other.value.coeff && t.degree == other.value.degree
  }

  predicate IsDigit(c: char) {
    '0' <= c <= '9'
  }

  function DigitChar(n: nat): (c: char)
    requires n < 10
    ensures IsDigit(c) && c as int - '0' as int == n
  {
    ('0' as int + n) as char
  }

  /** The decimal rendering of a degree, as Java's string concatenation of an
      `int` gives it (no sign, no leading zeros). */
  function NatString(n: nat): (r: string)
    ensures |r| >= 1
    ensures forall i :: 0 <= i < |r| ==> IsDigit(r[i])
    ensures n >= 10 <==> |r| > 1
    ensures |r| > 1 ==> r[0] != '0'
    decreases n
  {
    if n < 10 then [DigitChar(n)] else NatString(n / 10) + [DigitChar(n % 10)]
  }

  /** The value of a string of decimal digits. */
  function DecimalValue(s: string): nat
    requires forall i :: 0 <= i < |s| ==> IsDigit(s[i])
    decreases |s|
  {
    if s == [] then 0
    else
      assert IsDigit(s[|s| - 1]);
      10 * DecimalValue(s[..|s| - 1]) + (s[|s| - 1] as int - '0' as int)
  }

  /** Reading back a rendered degree gives the degree. */
  lemma {:induction false} NatStringRoundTrip(n: nat)
    ensures DecimalValue(NatString(n)) == n
    decreases n
  {
    if n >= 10 {
      var prefix := NatString(n / 10);
      var r := prefix + [DigitChar(n % 10)];
      assert r[..|r| - 1] == prefix;
      NatStringRoundTrip(n / 10);
    }
  }

  /** Distinct degrees render differently. */
  lemma NatStringInjective(m: nat, n: nat)
    requires NatString(m) == NatString(n)
    ensures m == n
  {
    NatStringRoundTrip(m);
    NatStringRoundTrip(n);
  }

  /** `Term.toString`: the coefficient alone at degree 0, followed by `x` at
      degree 1 and by `x^` and the degree otherwise. How the coefficient
      itself is printed (Java's float formatting) is the parameter `show`. */
  function TermString(t: Term, show: real -> string): (r: string)
    ensures r == show(t.coeff) + DegreeSuffix(t.degree)
  {
    if t.degree == 0 then show(t.coeff)
    else if t.degree == 1 then show(t.coeff) + "x"
    else show(t.coeff) + "x^" + NatString(t.degree)
  }

  /** What follows the coefficient in a term's rendering: nothing at degree
      0, `x` at degree 1, and `x^` with the decimal degree otherwise. */
  function DegreeSuffix(d: nat): string {
    if d == 0 then "" else if d == 1 then "x" else "x^" + NatString(d)
  }

  /** Every rendering starts with the rendered coefficient. */
  lemma TermStringStartsWithCoeff(t: Term, show: real -> string)
    ensures |show(t.coeff)| <= |TermString(t, show)|
    ensures TermString(t, show)[..|show(t.coeff)|] == show(t.coeff)
  {
    var p := show(t.coeff);
    var r := TermString(t, show);
    if t.degree == 1 {
      assert r == p + "x";
    } else if t.degree >= 2 {
      assert r == p + ("x^" + NatString(t.degree));
    }
  }

  /** Two terms with the same coefficient render alike only when their
      degrees agree: the rendering determines the degree. */
  lemma TermStringInjective(t1: Term, t2: Term, show: real -> string)
    requires t1.coeff == t2.coeff
    requires TermString(t1, show) == TermString(t2, show)
    ensures t1 == t2
  {
    var p := show(t1.coeff);
    if t1.degree >= 2 && t2.degree >= 2 {
      var r1 := TermString(t1, show);
      var r2 := TermString(t2, show);
      assert r1[|p| + 2..] == NatString(t1.degree);
      assert r2[|p| + 2..] == NatString(t2.degree);
      NatStringInjective(t1.degree, t2.degree);
    }
  }
}
