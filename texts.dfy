/**
 * `Array.prototype.join` and its inverse `String.prototype.split` on a
 * single-character separator, as the target builder uses them.
 */
module Texts {

  /** `xs.join(sep)`: the elements with `sep` between neighbours; `""` for no elements. */
  function Join(xs: seq<string>, sep: string): string {
    if |xs| == 0 then ""
    else if |xs| == 1 then xs[0]
    else Join(xs[..|xs| - 1], sep) + sep + xs[|xs| - 1]
  }

  lemma JoinAppend(xs: seq<string>, x: string, sep: string)
    requires |xs| >= 1
    ensures Join(xs + [x], sep) == Join(xs, sep) + sep + x
  {
    assert (xs + [x])[..|xs|] == xs;
  }

  /** `s.split(sep)`: the pieces between separators, always at least one. */
  function Split(s: string, sep: char): (pieces: seq<string>)
    ensures |pieces| >= 1
  {
    if s == [] then [""]
    else
      var front := Split(s[..|s| - 1], sep);
      var last := s[|s| - 1];
      if last == sep then front + [""]
      else front[..|front| - 1] + [front[|front| - 1] + [last]]
  }

  /** A string without the separator is a single piece. */
  lemma {:induction false} SplitNoSeparator(x: string, sep: char)
    requires sep !in x
    ensures Split(x, sep) == [x]
  {
    if x != [] {
      SplitNoSeparator(x[..|x| - 1], sep);
      assert x[..|x| - 1] + [x[|x| - 1]] == x;
    }
  }

  /** Appending a separator and a separator-free piece adds exactly that piece. */
  lemma {:induction false} SplitAppendPiece(a: string, sep: char, x: string)
    requires sep !in x
    ensures Split(a + [sep] + x, sep) == Split(a, sep) + [x]
  {
    if x == [] {
      assert a + [sep] + x == a + [sep];
      assert (a + [sep])[..|a|] == a;
    } else {
      var x' := x[..|x| - 1];
      SplitAppendPiece(a, sep, x');
      assert (a + [sep] + x)[..|a + [sep] + x| - 1] == a + [sep] + x';
      assert x' + [x[|x| - 1]] == x;
    }
  }

  /** Splitting a join recovers the elements, provided none contains the separator. */
  lemma {:induction false} SplitJoin(xs: seq<string>, sep: char)
    requires |xs| >= 1
    requires forall i :: 0 <= i < |xs| ==> sep !in xs[i]
    ensures Split(Join(xs, [sep]), sep) == xs
  {
    if |xs| == 1 {
      SplitNoSeparator(xs[0], sep);
    } else {
      var front := xs[..|xs| - 1];
      SplitJoin(front, sep);
      SplitAppendPiece(Join(front, [sep]), sep, xs[|xs| - 1]);
      assert front + [xs[|xs| - 1]] == xs;
    }
  }

  /** A character in no element and not in the separator is not in the join. */
  lemma {:induction false} NotInJoin(xs: seq<string>, sep: string, c: char)
    requires c !in sep
    requires forall i :: 0 <= i < |xs| ==> c !in xs[i]
    ensures c !in Join(xs, sep)
  {
    if |xs| > 1 {
      NotInJoin(xs[..|xs| - 1], sep, c);
    }
  }
}
