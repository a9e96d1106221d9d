/**
 * The parts of Python's `str` behaviour the crawler relies on: the ordering
 * `sorted` uses (comparison by code point), `startswith`, and `splitlines`.
 */
module Strings {

  /** `a < b` on Python strings: lexicographic comparison of code points. */
  predicate Less(a: string, b: string)
  {
    if a == [] then b != []
    else if b == [] then false
    else if a[0] != b[0] then a[0] < b[0]
    else Less(a[1..], b[1..])
  }

  lemma {:induction false} LessIrreflexive(a: string)
    ensures !Less(a, a)
  {
    if a != [] {
      LessIrreflexive(a[1..]);
    }
  }

  lemma {:induction false} LessTransitive(a: string, b: string, c: string)
    requires Less(a, b) && Less(b, c)
    ensures Less(a, c)
  {
    if a != [] && a[0] == b[0] && b[0] == c[0] {
      LessTransitive(a[1..], b[1..], c[1..]);
    }
  }

  lemma {:induction false} LessTotal(a: string, b: string)
    requires a != b
    ensures Less(a, b) || Less(b, a)
  {
    if a != [] && b != [] && a[0] == b[0] {
      assert a == [a[0]] + a[1..] && b == [b[0]] + b[1..];
      LessTotal(a[1..], b[1..]);
    }
  }

  lemma LessAsymmetric(a: string, b: string)
    requires Less(a, b)
    ensures !Less(b, a)
  {
    if Less(b, a) {
      LessTransitive(a, b, a);
      LessIrreflexive(a);
    }
  }

  /** `s.startswith(prefix)`. */
  predicate StartsWith(s: string, prefix: string)
  {
    |prefix| <= |s| && s[..|prefix|] == prefix
  }

  function Elements(xs: seq<string>): set<string>
  {
    set x | x in xs
  }

  predicate StrictlyIncreasing(xs: seq<string>)
  {
    forall i, j :: 0 <= i < j < |xs| ==> Less(xs[i], xs[j])
  }

  ghost predicate IsLeast(m: string, s: set<string>)
  {
    m in s && forall x :: x in s && x != m ==> Less(m, x)
  }

  lemma {:induction false} LeastExists(s: set<string>)
    requires s != {}
    ensures exists m :: IsLeast(m, s)
    decreases |s|
  {
    var y :| y in s;
    if s != {y} {
      LeastExists(s - {y});
      var m :| IsLeast(m, s - {y});
      if Less(m, y) {
        forall x | x in s && x != m
          ensures Less(m, x)
        {
          if x == y {
          } else {
            assert x in s - {y};
          }
        }
        assert IsLeast(m, s);
      } else {
        LessTotal(m, y);
        forall x | x in s && x != y
          ensures Less(y, x)
        {
          if x != m {
            assert x in s - {y};
            LessTransitive(y, m, x);
          }
        }
        assert IsLeast(y, s);
      }
    } else {
      assert IsLeast(y, s);
    }
  }

  ghost function Least(s: set<string>): (m: string)
    requires s != {}
    ensures IsLeast(m, s)
  {
    LeastExists(s);
    var m :| IsLeast(m, s);
    m
  }

  /** `sorted(s)` for a set of strings: its elements, each once, in increasing order. */
  ghost function Sorted(s: set<string>): (r: seq<string>)
    ensures StrictlyIncreasing(r) && Elements(r) == s && |r| == |s|
    decreases |s|
  {
    if s == {} then []
    else
      var m := Least(s);
      var rest := Sorted(s - {m});
      assert |s - {m}| == |s| - 1;
      assert forall x :: x in rest ==> x in Elements(rest);
      ConsLeast(m, rest);
      [m] + rest
  }

  lemma ConsLeast(m: string, rest: seq<string>)
    requires StrictlyIncreasing(rest)
    requires forall x :: x in rest ==> Less(m, x)
    ensures StrictlyIncreasing([m] + rest) && Elements([m] + rest) == {m} + Elements(rest)
  {
    var r := [m] + rest;
    forall i, j | 0 <= i < j < |r|
      ensures Less(r[i], r[j])
    {
      if i > 0 {
        assert r[i] == rest[i - 1] && r[j] == rest[j - 1];
      } else {
        assert r[j] in rest;
      }
    }
  }

  /** The first element of a strictly increasing listing is the least one, and occurs once. */
  lemma HeadIsLeast(r: seq<string>)
    requires StrictlyIncreasing(r) && r != []
    ensures IsLeast(r[0], Elements(r))
    ensures Elements(r[1..]) == Elements(r) - {r[0]}
    ensures StrictlyIncreasing(r[1..])
  {
    forall x | x in Elements(r) && x != r[0]
      ensures Less(r[0], x)
    {
      var i :| 0 <= i < |r| && r[i] == x;
    }
    forall x | x in r[1..]
      ensures x != r[0]
    {
      var i :| 1 <= i < |r| && r[i] == x;
      LessIrreflexive(x);
    }
    assert r == [r[0]] + r[1..];
    forall i, j | 0 <= i < j < |r[1..]|
      ensures Less(r[1..][i], r[1..][j])
    {
      assert r[1..][i] == r[i + 1] && r[1..][j] == r[j + 1];
    }
  }

  lemma LeastUnique(m1: string, m2: string, s: set<string>)
    requires IsLeast(m1, s) && IsLeast(m2, s)
    ensures m1 == m2
  {
    if m1 != m2 {
      LessAsymmetric(m1, m2);
    }
  }

  /** A strictly increasing listing of a set is unique, so `Sorted` is the only one. */
  lemma {:induction false} SortedUnique(r: seq<string>, s: set<string>)
    requires StrictlyIncreasing(r) && Elements(r) == s
    ensures r == Sorted(s)
    decreases |r|
  {
    var q := Sorted(s);
    if r != [] {
      assert q != [] by { assert r[0] in Elements(r); }
      HeadIsLeast(r);
      HeadIsLeast(q);
      LeastUnique(r[0], q[0], s);
      SortedUnique(r[1..], s - {r[0]});
      SortedUnique(q[1..], s - {r[0]});
      assert q == [q[0]] + q[1..];
      assert r == [r[0]] + r[1..];
    }
  }

  /** The least element of a non-empty set, found by a scan in arbitrary order. */
  method LeastOf(s: set<string>) returns (m: string)
    requires s != {}
    ensures IsLeast(m, s)
  {
    m :| m in s;
    var rest := s - {m};
    while rest != {}
      invariant m in s && rest <= s
      invariant forall x :: x in s - rest && x != m ==> Less(m, x)
      decreases |rest|
    {
      var x :| x in rest;
      if Less(x, m) {
        forall y | y in s - rest && y != x
          ensures Less(x, y)
        {
          if y != m {
            LessTransitive(x, m, y);
          }
        }
        m := x;
      } else if x != m {
        LessTotal(x, m);
      }
      rest := rest - {x};
    }
  }

  lemma SnocGreater(r: seq<string>, m: string)
    requires StrictlyIncreasing(r)
    requires forall i :: 0 <= i < |r| ==> Less(r[i], m)
    ensures StrictlyIncreasing(r + [m]) && Elements(r + [m]) == Elements(r) + {m}
  {
    var q := r + [m];
    forall i, j | 0 <= i < j < |q|
      ensures Less(q[i], q[j])
    {
      assert q[i] == r[i];
    }
  }

  /** Selection so far: `r` holds, in increasing order, the elements of `s` below all of `rest`. */
  predicate SortState(r: seq<string>, rest: set<string>, s: set<string>)
  {
    && StrictlyIncreasing(r)
    && Elements(r) + rest == s && Elements(r) !! rest
    && (forall i, y :: 0 <= i < |r| && y in rest ==> Less(r[i], y))
  }

  lemma SortStep(r: seq<string>, rest: set<string>, s: set<string>, m: string)
    requires SortState(r, rest, s) && IsLeast(m, rest)
    ensures SortState(r + [m], rest - {m}, s)
  {
    SnocGreater(r, m);
    var q := r + [m];
    forall i, y | 0 <= i < |q| && y in rest - {m}
      ensures Less(q[i], y)
    {
      if i == |r| {
        assert q[i] == m;
      } else {
        assert q[i] == r[i];
      }
    }
  }

  /** Python's `sorted` applied to a set of strings. */
  method SortStrings(s: set<string>) returns (r: seq<string>)
    ensures r == Sorted(s)
  {
    r := [];
    var rest := s;
    while rest != {}
      invariant SortState(r, rest, s)
      decreases |rest|
    {
      var m := LeastOf(rest);
      SortStep(r, rest, s, m);
      r := r + [m];
      rest := rest - {m};
    }
    SortedUnique(r, s);
  }

  /** The characters `str.splitlines` treats as line boundaries. */
  predicate IsLineBreak(c: char)
  {
    c in {'\n', '\r', '\U{B}', '\U{C}', '\U{1C}', '\U{1D}', '\U{1E}', '\U{85}', '\U{2028}', '\U{2029}'}
  }

  predicate HasNoLineBreak(s: string)
  {
    forall i :: 0 <= i < |s| ==> !IsLineBreak(s[i])
  }

  /**
   * `s.splitlines()` where `line` is the part of the current line already read:
   * a boundary (`\r\n` counting as one) ends a line, and a boundary at the very
   * end does not start an empty last line.
   */
  function SplitLinesFrom(s: string, line: string): seq<string>
    decreases |s|
  {
    if s == [] then (if line == [] then [] else [line])
    else if s[0] == '\r' && |s| > 1 && s[1] == '\n' then [line] + SplitLinesFrom(s[2..], [])
    else if IsLineBreak(s[0]) then [line] + SplitLinesFrom(s[1..], [])
    else SplitLinesFrom(s[1..], line + [s[0]])
  }

  function SplitLines(s: string): seq<string>
  {
    SplitLinesFrom(s, [])
  }

  /** The text `for x in xs: f.write(f"{x}\n")` produces. */
  function Terminated(xs: seq<string>): string
  {
    if xs == [] then [] else xs[0] + "\n" + Terminated(xs[1..])
  }

  lemma {:induction false} TerminatedSnoc(xs: seq<string>, x: string)
    ensures Terminated(xs + [x]) == Terminated(xs) + x + "\n"
  {
    if xs == [] {
      assert [x][1..] == [];
    } else {
      assert (xs + [x])[1..] == xs[1..] + [x];
      TerminatedSnoc(xs[1..], x);
    }
  }

  /** Writing one more line of `xs` appends that line and its newline. */
  lemma TerminatedNext(xs: seq<string>, i: nat)
    requires i < |xs|
    ensures Terminated(xs[..i + 1]) == Terminated(xs[..i]) + xs[i] + "\n"
  {
    assert xs[..i + 1] == xs[..i] + [xs[i]];
    TerminatedSnoc(xs[..i], xs[i]);
  }

  lemma {:induction false} SplitLineOf(x: string, rest: string, line: string)
    requires HasNoLineBreak(x)
    ensures SplitLinesFrom(x + "\n" + rest, line) == [line + x] + SplitLines(rest)
    decreases |x|
  {
    if x == [] {
      assert x + "\n" + rest == "\n" + rest && ("\n" + rest)[1..] == rest;
      assert line + x == line;
    } else {
      assert (x + "\n" + rest)[1..] == x[1..] + "\n" + rest;
      SplitLineOf(x[1..], rest, line + [x[0]]);
      assert line + [x[0]] + x[1..] == line + x;
    }
  }

  /** Reading back a written listing with `splitlines` gives the listing. */
  lemma {:induction false} SplitTerminated(xs: seq<string>)
    requires forall i :: 0 <= i < |xs| ==> HasNoLineBreak(xs[i])
    ensures SplitLines(Terminated(xs)) == xs
  {
    if xs != [] {
      SplitLineOf(xs[0], Terminated(xs[1..]), []);
      SplitTerminated(xs[1..]);
      assert [] + xs[0] == xs[0];
      assert xs == [xs[0]] + xs[1..];
    }
  }
}
