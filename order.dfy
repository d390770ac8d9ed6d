/** Code-point order on strings (Python's `<` on `str`, and the order the
    database uses for `ordering = ['name']`), the least element of a set of
    names and the ascending listing of a set of names. */
module Order {

  /** `a < b` as Python compares strings. */
  predicate LexLess(a: string, b: string) {
    if a == [] then b != []
    else if b == [] then false
    else if a[0] != b[0] then a[0] < b[0]
    else LexLess(a[1..], b[1..])
  }

  lemma LexLessIrreflexive(a: string)
    ensures !LexLess(a, a)
  {
  }

  lemma {:induction false} LexLessTransitive(a: string, b: string, c: string)
    requires LexLess(a, b) && LexLess(b, c)
    ensures LexLess(a, c)
    decreases |a|
  {
    if a != [] && b != [] && c != [] && a[0] == b[0] && b[0] == c[0] {
      LexLessTransitive(a[1..], b[1..], c[1..]);
    }
  }

  lemma {:induction false} LexLessTotal(a: string, b: string)
    requires a != b
    ensures LexLess(a, b) || LexLess(b, a)
    decreases |a|
  {
    if a != [] && b != [] && a[0] == b[0] {
      assert a == [a[0]] + a[1..] && b == [b[0]] + b[1..];
      LexLessTotal(a[1..], b[1..]);
    }
  }

  lemma {:induction false} LexLessAsymmetric(a: string, b: string)
    requires LexLess(a, b)
    ensures !LexLess(b, a)
    decreases |a|
  {
    if a != [] && b != [] && a[0] == b[0] {
      LexLessAsymmetric(a[1..], b[1..]);
    }
  }

  /** `m` comes before every other element of `s`. */
  predicate IsLeast(m: string, s: set<string>) {
    m in s && forall x :: x in s && x != m ==> LexLess(m, x)
  }

  lemma {:induction false} LeastExists(s: set<string>)
    requires s != {}
    ensures exists m :: IsLeast(m, s)
    decreases |s|
  {
    var x :| x in s;
    if s != {x} {
      LeastExists(s - {x});
      var m :| IsLeast(m, s - {x});
      if LexLess(m, x) {
        forall y | y in s && y != m ensures LexLess(m, y) { }
        assert IsLeast(m, s);
      } else {
        LexLessTotal(m, x);
        forall y | y in s && y != x ensures LexLess(x, y) {
          if y != m { LexLessTransitive(x, m, y); }
        }
        assert IsLeast(x, s);
      }
    } else {
      assert IsLeast(x, s);
    }
  }

  lemma LeastUnique(s: set<string>, m: string, n: string)
    requires IsLeast(m, s) && IsLeast(n, s)
    ensures m == n
  {
    if m != n { LexLessAsymmetric(m, n); }
  }

  /** The least element of a non-empty set of names. */
  function Least(s: set<string>): (m: string)
    requires s != {}
    ensures IsLeast(m, s)
  {
    LeastExists(s);
    forall m, n | IsLeast(m, s) && IsLeast(n, s) ensures m == n { LeastUnique(s, m, n); }
    var m :| IsLeast(m, s); m
  }

  /** Strictly ascending. */
  predicate Ascending(r: seq<string>) {
    forall i, j :: 0 <= i < j < |r| ==> LexLess(r[i], r[j])
  }

  /** The names of `s` listed in ascending order, each once: what a query
      on a table with `ordering = ['name']` yields. */
  function SortedNames(s: set<string>): (r: seq<string>)
    ensures Ascending(r)
    ensures |r| == |s|
    ensures forall x :: x in r <==> x in s
    decreases |s|
  {
    if s == {} then []
    else
      var m := Least(s);
      var rest := SortedNames(s - {m});
      assert forall x :: x in rest ==> LexLess(m, x);
      [m] + rest
  }

  /** An ascending listing of a set is unique: any ascending sequence with
      the same elements is `SortedNames` of them. */
  lemma {:induction false} AscendingIsSortedNames(r: seq<string>, s: set<string>)
    requires Ascending(r)
    requires forall x :: x in r <==> x in s
    ensures r == SortedNames(s)
    decreases |r|
  {
    if r == [] {
      assert s == {};
    } else {
      AscendingHeadIsLeast(r, s);
      LeastUnique(s, r[0], Least(s));
      AscendingTail(r, s);
      AscendingIsSortedNames(r[1..], s - {r[0]});
      SortedNamesCons(s);
      assert r == [r[0]] + r[1..];
    }
  }

  lemma SortedNamesCons(s: set<string>)
    requires s != {}
    ensures SortedNames(s) == [Least(s)] + SortedNames(s - {Least(s)})
  {
  }

  lemma AscendingHeadIsLeast(r: seq<string>, s: set<string>)
    requires r != [] && Ascending(r)
    requires forall x :: x in r <==> x in s
    ensures IsLeast(r[0], s)
  {
    forall x | x in s && x != r[0] ensures LexLess(r[0], x) {
      var j :| 0 <= j < |r| && r[j] == x;
      assert j != 0;
    }
  }

  lemma AscendingTail(r: seq<string>, s: set<string>)
    requires r != [] && Ascending(r)
    requires forall x :: x in r <==> x in s
    ensures Ascending(r[1..])
    ensures forall x :: x in r[1..] <==> x in s - {r[0]}
  {
    var t := r[1..];
    forall i, j | 0 <= i < j < |t| ensures LexLess(t[i], t[j]) {
      assert t[i] == r[i + 1] && t[j] == r[j + 1];
    }
    forall x ensures x in t <==> x in s - {r[0]} {
      if x in t {
        var j :| 0 <= j < |t| && t[j] == x;
        assert LexLess(r[0], r[j + 1]);
        LexLessIrreflexive(r[0]);
      }
      if x in s - {r[0]} {
        var j :| 0 <= j < |r| && r[j] == x;
        assert j != 0 && t[j - 1] == x;
      }
    }
  }

  /** Strictly increasing keys. */
  predicate Increasing(r: seq<int>) {
    forall i, j :: 0 <= i < j < |r| ==> r[i] < r[j]
  }

  lemma {:induction false} MinExists(s: set<int>)
    requires s != {}
    ensures exists m :: m in s && forall x :: x in s ==> m <= x
    decreases |s|
  {
    if forall y :: y !in s {
      assert false;
    }
    var x :| x in s;
    if s != {x} {
      MinExists(s - {x});
      var m :| m in s - {x} && forall y :: y in s - {x} ==> m <= y;
      if m <= x {
        forall y | y in s ensures m <= y {
          if y != x { assert y in s - {x}; }
        }
      } else {
        forall y | y in s ensures x <= y {
          if y != x { assert y in s - {x}; }
        }
      }
    } else {
      assert forall y :: y in s ==> x <= y;
    }
  }

  /** The keys of `s` in increasing order, each once. */
  function SortedIds(s: set<int>): (r: seq<int>)
    ensures Increasing(r)
    ensures |r| == |s|
    ensures forall x :: x in r <==> x in s
    decreases |s|
  {
    if s == {} then []
    else
      var m := MinId(s);
      var rest := SortedIds(s - {m});
      ConsIncreasing(m, rest);
      ConsMembers(s, m, rest);
      [m] + rest
  }

  /** The least key of a non-empty set. */
  function MinId(s: set<int>): (m: int)
    requires s != {}
    ensures m in s && forall x :: x in s ==> m <= x
  {
    MinExists(s);
    var m :| m in s && forall x :: x in s ==> m <= x;
    m
  }

  /** Putting an element of `s` before a listing of the rest lists `s`. */
  lemma ConsMembers(s: set<int>, m: int, rest: seq<int>)
    requires m in s && |rest| == |s - {m}| && forall x :: x in rest <==> x in s - {m}
    ensures |[m] + rest| == |s| && forall x :: x in [m] + rest <==> x in s
  {
  }

  lemma ConsIncreasing(m: int, rest: seq<int>)
    requires Increasing(rest) && forall x :: x in rest ==> m < x
    ensures Increasing([m] + rest)
  {
    var r := [m] + rest;
    forall i, j | 0 <= i < j < |r| ensures r[i] < r[j] {
      assert r[j] == rest[j - 1] && rest[j - 1] in rest;
      if i > 0 { assert r[i] == rest[i - 1]; }
    }
  }
}
