# Sparse polynomials in one variable

This project models the polynomial class of `Polynomial.java` and proves properties of the model. The Java class stores a polynomial as a singly linked chain of `Node`s. Each node holds a `Term`: a `float` coefficient and an `int` degree. The class provides:

- an empty constructor;
- a constructor that reads `coeff degree` lines;
- `add`, `multiply`, `evaluate` and `toString`.

The model works like this:

- **Terms** (`Terms.dfy`). A `Term` is a datatype `Term(coeff: real, degree: nat)`. `Term.equals` and `Term.toString` are functions. The digits of a rendered coefficient are left abstract behind a parameter `show: real -> string`. A degree is rendered in decimal by `NatString`, which is proved to read back to the degree.
- **Term lists** (`TermLists.dfy`). The node chain is a `seq<Term>` with the front node first. Its canonical form is:
  - degrees strictly ascending from the front, so no degree occurs twice;
  - no zero coefficient.

  `Coeff(s, d)` is the abstract view "the coefficient of `x^d`". Two canonical lists with the same coefficients are equal term for term (`CanonicalUnique`).
- **Specification functions**:
  - `Merge` (`Addition.dfy`) is the list `add` builds;
  - `Product` (`Multiplication.dfy`) is the list `multiply` builds;
  - `Eval` (`Evaluation.dfy`) is the value `evaluate` computes;
  - `Render` (`Rendering.dfy`) is the string `toString` builds.

  Lemmas beside each function relate it to the abstract view:
  - sums: coefficients add at every degree;
  - products: each coefficient is the sum of pairwise products over term pairs whose degrees add up to that degree (a convolution);
  - evaluation is a homomorphism for both sums and products;
  - the rendering is the term strings joined by `" + "`, highest stored degree first.
- **The class** (`Polynomial.dfy`). Class `Polynomial` has the field `poly: seq<Term>`. Its constructors and methods use the Java code's loops. Each is proved against the specification function above.
  - `Add` walks two cursors and builds the sum behind an accumulator, which stands for the dummy head node and the tail pointer.
  - `Add` overwrites `p.poly` and returns `p`, as the Java code does. It leaves `this` unchanged unless `this` is `p`.

**Storage order.** The input lines are documented as descending (`Polynomial.java:121`). The constructor prepends each line (`Polynomial.java:148`), so the stored list is ascending, lowest degree at the front. `add` merges under that ascending order, and the model stores terms the same way.

## Model

| member | source | states |
|---|---|---|
| Terms.TermEquals | Polynomial/src/poly/Polynomial.java:38-43 | `equals` is true exactly when the other object is a term with the same coefficient and degree; a null or non-term object gives false |
| Terms.TermString | Polynomial/src/poly/Polynomial.java:48-56 | `Term.toString`: the rendered coefficient followed by `DegreeSuffix(degree)`, which is nothing at degree 0, `"x"` at degree 1 and `"x^"` with the decimal degree otherwise |
| Terms.NatString | Polynomial/src/poly/Polynomial.java:54 | the decimal rendering of a degree: at least one digit, only digits, more than one digit exactly from 10 on, and no leading zero |
| Terms.NatStringRoundTrip | Polynomial/src/poly/Polynomial.java:54 | the decimal rendering of a degree reads back to that degree |
| Terms.NatStringInjective | Polynomial/src/poly/Polynomial.java:54 | distinct degrees render as distinct digit strings |
| Terms.TermStringStartsWithCoeff | Polynomial/src/poly/Polynomial.java:48-56 | every term rendering starts with the rendered coefficient |
| Terms.TermStringInjective | Polynomial/src/poly/Polynomial.java:48-56 | two terms with equal coefficients render alike only if their degrees agree, so the suffix `""`, `"x"` or `"x^"`+degree determines the degree |
| TermLists.ReversedReversed | Polynomial/src/poly/Polynomial.java:144-149 | storing in reverse input order loses nothing: reversing twice gives the input back |
| TermLists.ReversedDescendingIsAscending | Polynomial/src/poly/Polynomial.java:142-149 | input with strictly descending degrees is stored strictly ascending; with no zero coefficients it is stored canonical |
| TermLists.CoeffCanonical | Polynomial/src/poly/Polynomial.java:102 | in a canonical list, a degree has a nonzero coefficient exactly when a term of that degree is stored, and that term carries the coefficient |
| TermLists.CanonicalUnique | Polynomial/src/poly/Polynomial.java:102 | a canonical term list is determined by its coefficient at every degree |
| Poly.Polynomial.constructor | Polynomial/src/poly/Polynomial.java:108-110 | the empty constructor gives the zero polynomial, with no terms |
| Poly.Polynomial.FromTerms | Polynomial/src/poly/Polynomial.java:136-150 | the stored terms are the input lines in reverse order; descending input is stored ascending, and canonical if no coefficient is zero |
| Poly.Polynomial.Add | Polynomial/src/poly/Polynomial.java:160-197 | `p.poly` becomes the merge of both operands and `p` is returned; `this` is unchanged unless it is `p`; at every degree the new coefficient is the sum of the operands' coefficients; canonical operands give a canonical sum |
| Addition.Merge | Polynomial/src/poly/Polynomial.java:164-193 | the list `add` builds, one merge step per loop iteration; adding the zero polynomial on either side gives the other operand's terms (the copying loops at 184-193) |
| Addition.MergeMeaning | Polynomial/src/poly/Polynomial.java:160-197 | the sum's coefficient at every degree is the sum of the operands' coefficients, and canonical operands give a canonical sum |
| Addition.MergeCoeff | Polynomial/src/poly/Polynomial.java:164-193 | at every degree, the sum's coefficient is the sum of the operands' coefficients |
| Addition.MergeAscending | Polynomial/src/poly/Polynomial.java:164-193 | merging two strictly ascending lists gives a strictly ascending list |
| Addition.MergeNoZero | Polynomial/src/poly/Polynomial.java:165-170 | a combined term whose coefficient cancels is dropped, so the sum of lists without zero coefficients has none |
| Addition.MergeCanonical | Polynomial/src/poly/Polynomial.java:164-193 | the sum of canonical lists is canonical |
| Addition.AddSharedDegree | Polynomial/src/poly/Polynomial.java:165-170 | a degree stored in both operands appears once in the sum, with the summed coefficient, or not at all when the sum is 0 |
| Addition.AddUnsharedDegree | Polynomial/src/poly/Polynomial.java:172-193 | a term whose degree only one operand holds is copied into the sum unchanged, whichever side it is on |
| Addition.MergeCommutes | Polynomial/src/poly/Polynomial.java:164-193 | the sum does not depend on the order of the operands |
| Addition.MergeNegation | Polynomial/src/poly/Polynomial.java:165-170 | adding a polynomial to its negation cancels every term |
| Poly.Polynomial.Multiply | Polynomial/src/poly/Polynomial.java:207-215 | the result is a fresh polynomial holding the product; its coefficient at each degree is the convolution of the operands; canonical operands give a canonical product; neither operand changes |
| Multiplication.Scale | Polynomial/src/poly/Polynomial.java:209-212 | the partial product for one term `u` of `p`: one product term `Times(u, t)` for each term `t` of `this`, in stored order, with coefficients multiplied and degrees added |
| Multiplication.Product | Polynomial/src/poly/Polynomial.java:207-215 | the list `multiply` builds: each partial product in turn added to the running result; multiplying by the zero polynomial on either side gives the zero polynomial |
| Multiplication.ProductMeaning | Polynomial/src/poly/Polynomial.java:207-215 | the product's coefficient at every degree is the convolution `Conv` of the operands, and canonical operands give a canonical product |
| Multiplication.ScaleCanonical | Polynomial/src/poly/Polynomial.java:211 | the partial product of an ascending list by one term is ascending, and canonical when the list is canonical and the term nonzero |
| Multiplication.ProductCoeff | Polynomial/src/poly/Polynomial.java:208-214 | the product's coefficient at degree d is the sum of `c1*c2` over the term pairs with `d1+d2 = d` |
| Multiplication.ProductCanonical | Polynomial/src/poly/Polynomial.java:208-214 | the product of canonical operands is strictly ascending with cancelled degrees absent |
| Multiplication.ConvSymmetric | Polynomial/src/poly/Polynomial.java:211 | the pairwise-product coefficient is symmetric in the two operands |
| Multiplication.ProductCommutes | Polynomial/src/poly/Polynomial.java:207-215 | multiplication of canonical operands is commutative, term for term |
| Poly.Polynomial.Evaluate | Polynomial/src/poly/Polynomial.java:223-229 | the result is the sum over the stored terms of `coeff * x^degree` |
| Evaluation.Eval | Polynomial/src/poly/Polynomial.java:224-228 | the value `evaluate` computes, the sum of the stored terms' values; at `x = 0` it is the coefficient of degree 0 |
| Evaluation.TermValueIsPow | Polynomial/src/poly/Polynomial.java:226 | a term's value is its coefficient times `x` to the power of its degree |
| Evaluation.EvalBasics | Polynomial/src/poly/Polynomial.java:224 | the zero polynomial evaluates to 0 everywhere, and a constant term to its coefficient |
| Evaluation.EvalMerge | Polynomial/src/poly/Polynomial.java:160-197 | evaluating a sum gives the sum of the operands' values |
| Evaluation.EvalProduct | Polynomial/src/poly/Polynomial.java:207-215 | evaluating a product gives the product of the operands' values |
| Poly.Polynomial.ToString | Polynomial/src/poly/Polynomial.java:234-248 | `"0"` for the zero polynomial; otherwise the term strings, last stored term first, joined by `" + "` |
| Rendering.Render | Polynomial/src/poly/Polynomial.java:237-247 | the string `toString` builds: `"0"` for the zero polynomial; otherwise the term strings in reverse stored order with `" + "` between neighbours |
| Rendering.RenderEnds | Polynomial/src/poly/Polynomial.java:240-246 | the rendering begins with the last stored term (the highest degree) and ends with the front term |

## Left out

- Reading the input (`BufferedReader.readLine`, `StringTokenizer`, `Float.parseFloat`, `Integer.parseInt`) is not modelled. The constructor `FromTerms` takes the already parsed `(coeff, degree)` pairs.
- `IOException`, `NumberFormatException` and `NoSuchElementException` from malformed or unreadable input are input errors outside the model.
- Poly.Polynomial.Multiply: writes each partial product as text and parses it back. The model passes the terms straight to `FromTerms`, so it assumes that the float-to-text-to-float round trip is exact.
- Floating-point arithmetic is not modelled. Coefficients are exact `real`s, so the model has no rounding in sums, products or `Math.pow`, and no `double`-to-`float` narrowing in `evaluate`. It also has no underflow, so a product of nonzero coefficients is never 0, and no NaN.
- Terms.TermEquals: compares `real`s. It does not model Java's float `==`, under which `NaN != NaN` and `-0.0 == 0.0`.
- Terms.TermString: how Java prints a `float` (`Float.toString`, e.g. `4.0`) is left abstract, as the parameter `show`.
- Degrees are `nat`. The model leaves out negative degrees and `int` overflow of degree sums in `multiply`.
- `Node` objects have no identity in the model. The chain is a value sequence, so sharing of nodes between polynomials and in-place splicing of `next` pointers are not represented. `add` allocates every result node fresh, so it shares nothing.
- Inputs that break the documented descending order, or that hold zero coefficients, are not excluded. The methods are modelled for every input. The ordering properties are then stated under the canonical-input hypothesis.
