/** `Polynomial.toString` as a value: the term strings joined by " + ",
    from the back of the stored list to the front. */
module Rendering {
  import opened Terms
  import opened TermLists

  /** The string `toString` builds for a non-empty list: it starts from the
      front term and puts each later term, followed by " + ", in front of
      what it has so far. */
  function Joined(s: seq<Term>, show: real -> string): string
    requires s != []
    decreases |s|
  {
    if |s| == 1 then TermString(s[0], show)
    else TermString(s[|s| - 1], show) + " + " + Joined(s[..|s| - 1], show)
  }

  /** `toString`: "0" for the zero polynomial; otherwise the term strings,
      last stored term (the highest degree) first, separated by " + ". */
  function Render(s: seq<Term>, show: real -> string): (r: string)
    ensures s == [] ==> r == "0"
    ensures s != [] ==> r == Join(Reversed(TermStrings(s, show)), " + ")
  {
    if s == [] then "0" else JoinedIsJoin(s, show); Joined(s, show)
  }

  /** The rendering of every stored term, in stored order. */
  function TermStrings(s: seq<Term>, show: real -> string): (r: seq<string>)
    ensures |r| == |s|
    ensures forall i :: 0 <= i < |s| ==> r[i] == TermString(s[i], show)
  {
    seq(|s|, i requires 0 <= i < |s| => TermString(s[i], show))
  }

  /** The strings of `xs`, first to last, with `sep` between neighbours. */
  function Join(xs: seq<string>, sep: string): string
    requires xs != []
    decreases |xs|
  {
    if |xs| == 1 then xs[0] else xs[0] + sep + Join(xs[1..], sep)
  }

  lemma TermStringsPrefix(s: seq<Term>, show: real -> string, n: nat)
    requires n <= |s|
    ensures TermStrings(s, show)[..n] == TermStrings(s[..n], show)
  {
  }

  /** The string `toString` builds for a non-empty list is its term
      strings, last stored term first, separated by " + ". */
  lemma {:induction false} JoinedIsJoin(s: seq<Term>, show: real -> string)
    requires s != []
    ensures Joined(s, show) == Join(Reversed(TermStrings(s, show)), " + ")
    decreases |s|
  {
    var ts := TermStrings(s, show);
    if |s| == 1 {
      assert Reversed(ts) == [ts[0]] + Reversed(ts[..0]);
    } else {
      var n := |s| - 1;
      JoinedIsJoin(s[..n], show);
      TermStringsPrefix(s, show, n);
      var rest := Reversed(ts[..n]);
      assert Reversed(ts) == [ts[n]] + rest;
      JoinCons(ts[n], rest, " + ");
    }
  }

  /** Joining a string in front of a non-empty list puts one separator
      between it and the rest. */
  lemma JoinCons(x: string, rest: seq<string>, sep: string)
    requires rest != []
    ensures Join([x] + rest, sep) == x + sep + Join(rest, sep)
  {
    assert ([x] + rest)[1..] == rest;
  }

  /** `p` is a prefix of `r`. */
  ghost predicate StartsWith(r: string, p: string) {
    |p| <= |r| && r[..|p|] == p
  }

  /** `q` is a suffix of `r`. */
  ghost predicate EndsWith(r: string, q: string) {
    |q| <= |r| && r[|r| - |q|..] == q
  }

  /** A string is a prefix of itself followed by anything, and a suffix of
      `y` stays a suffix of `x + y`. */
  lemma EndsOfConcat(x: string, y: string, z: string)
    requires EndsWith(y, z)
    ensures StartsWith(x + y, x) && EndsWith(x + y, z)
  {
    assert (x + y)[..|x|] == x;
    assert (x + y)[|x + y| - |z|..] == y[|y| - |z|..];
  }

  /** The string `toString` builds starts with the last stored term and
      ends with the front one. */
  lemma {:induction false} JoinedEnds(s: seq<Term>, show: real -> string)
    requires s != []
    ensures StartsWith(Joined(s, show), TermString(s[|s| - 1], show))
    ensures EndsWith(Joined(s, show), TermString(s[0], show))
    decreases |s|
  {
    if |s| == 1 {
      var r := Joined(s, show);
      assert r[..|r|] == r && r[|r| - |r|..] == r;
    } else {
      var n := |s| - 1;
      JoinedEnds(s[..n], show);
      assert s[..n][0] == s[0];
      var first, rest := TermString(s[n], show), Joined(s[..n], show);
      assert Joined(s, show) == first + (" + " + rest);
      EndsOfConcat(" + ", rest, TermString(s[0], show));
      EndsOfConcat(first, " + " + rest, TermString(s[0], show));
    }
  }

  /** A rendering begins with the last stored term and ends with the front
      one: for a canonical list, the highest degree comes first and the
      lowest last. */
  lemma RenderEnds(s: seq<Term>, show: real -> string)
    requires s != []
    ensures StartsWith(Render(s, show), TermString(s[|s| - 1], show))
    ensures EndsWith(Render(s, show), TermString(s[0], show))
  {
    JoinedEnds(s, show);
  }
}
