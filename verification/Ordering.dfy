/** The orders Rust's `BTreeMap` and `BTreeSet` iterate in, for tile numbers and for strings. */
module Ordering {

  // ----- numbers

  predicate IsSmallest(x: nat, s: set<nat>) { x in s && forall y <- s :: x <= y }

  lemma {:induction false} SmallestExists(s: set<nat>)
    requires s != {}
    ensures exists x :: IsSmallest(x, s)
    decreases |s|
  {
    var a :| a in s;
    if s == {a} {
      assert IsSmallest(a, s);
    } else {
      SmallestExists(s - {a});
      var x :| IsSmallest(x, s - {a});
      assert forall y <- s :: y == a || y in s - {a};
      assert IsSmallest(if a <= x then a else x, s);
    }
  }

  function Smallest(s: set<nat>): (x: nat)
    requires s != {}
    ensures IsSmallest(x, s)
  {
    SmallestExists(s);
    var x :| x in s && IsSmallest(x, s);
    x
  }

  // ----- strings, compared character by character

  predicate Before(a: string, b: string) {
    if b == [] then false
    else if a == [] then true
    else if a[0] != b[0] then a[0] < b[0]
    else Before(a[1..], b[1..])
  }

  /** The first place where the strings differ decides: one ends there, or has the smaller character there. */
  lemma {:induction false} BeforeIsLexicographic(a: string, b: string)
    ensures Before(a, b)
       <==> exists i :: 0 <= i <= |a| && i < |b| && a[..i] == b[..i] && (i == |a| || a[i] < b[i])
  {
    if a == [] && b != [] {
      assert a[..0] == b[..0];
    } else if a != [] && b != [] {
      if a[0] != b[0] {
        assert a[..0] == b[..0];
        forall i | 0 < i <= |a| && i < |b| ensures a[..i] != b[..i] {
          assert a[..i][0] == a[0] && b[..i][0] == b[0];
        }
      } else {
        BeforeIsLexicographic(a[1..], b[1..]);
        TailsDiffer(a, b);
      }
    }
  }

  lemma TailsDiffer(a: string, b: string)
    requires a != [] && b != [] && a[0] == b[0]
    ensures (exists i :: 0 <= i <= |a| && i < |b| && a[..i] == b[..i] && (i == |a| || a[i] < b[i]))
       <==> (exists i :: (&& 0 <= i <= |a[1..]| && i < |b[1..]| && a[1..][..i] == b[1..][..i]
                          && (i == |a[1..]| || a[1..][i] < b[1..][i])))
  {
    forall i | 0 < i <= |a| && i < |b| ensures a[..i] == b[..i] <==> a[1..][..i - 1] == b[1..][..i - 1] {
      assert a[..i] == [a[0]] + a[1..][..i - 1] && b[..i] == [b[0]] + b[1..][..i - 1];
      assert a[..i][1..] == a[1..][..i - 1] && b[..i][1..] == b[1..][..i - 1];
    }
    if i :| 0 <= i <= |a| && i < |b| && a[..i] == b[..i] && (i == |a| || a[i] < b[i]) {
      assert 0 <= i - 1 <= |a[1..]| && a[1..][..i - 1] == b[1..][..i - 1];
    }
    if i :| && 0 <= i <= |a[1..]| && i < |b[1..]| && a[1..][..i] == b[1..][..i]
            && (i == |a[1..]| || a[1..][i] < b[1..][i]) {
      assert a[..i + 1] == b[..i + 1];
    }
  }

  lemma {:induction false} BeforeIsTotal(a: string, b: string)
    ensures a == b || Before(a, b) || Before(b, a)
  {
    if a != [] && b != [] && a[0] == b[0] {
      BeforeIsTotal(a[1..], b[1..]);
      assert a == [a[0]] + a[1..] && b == [b[0]] + b[1..];
    }
  }

  lemma {:induction false} BeforeIsAsymmetric(a: string, b: string)
    ensures !(Before(a, b) && Before(b, a))
  {
    if a != [] && b != [] && a[0] == b[0] {
      BeforeIsAsymmetric(a[1..], b[1..]);
    }
  }

  lemma {:induction false} BeforeIsTransitive(a: string, b: string, c: string)
    requires Before(a, b) && Before(b, c)
    ensures Before(a, c)
  {
    if a != [] && a[0] == b[0] && b[0] == c[0] {
      BeforeIsTransitive(a[1..], b[1..], c[1..]);
    }
  }

  predicate IsFirst(x: string, s: set<string>) {
    x in s && forall y <- s :: y == x || Before(x, y)
  }

  lemma {:induction false} FirstExists(s: set<string>)
    requires s != {}
    ensures exists x :: IsFirst(x, s)
    decreases |s|
  {
    var a :| a in s;
    if s == {a} {
      assert IsFirst(a, s);
    } else {
      var rest := s - {a};
      FirstExists(rest);
      var x :| IsFirst(x, rest);
      BeforeIsTotal(a, x);
      if Before(x, a) {
        assert IsFirst(x, s);
      } else {
        forall y | y in s ensures y == a || Before(a, y) {
          if y in rest && y != x {
            BeforeIsTransitive(a, x, y);
          }
        }
        assert IsFirst(a, s);
      }
    }
  }

  lemma FirstIsUnique(x: string, y: string, s: set<string>)
    requires IsFirst(x, s) && IsFirst(y, s)
    ensures x == y
  {
    BeforeIsAsymmetric(x, y);
  }

  function First(s: set<string>): (x: string)
    requires s != {}
    ensures IsFirst(x, s)
  {
    FirstExists(s);
    assert forall x, y :: IsFirst(x, s) && IsFirst(y, s) ==> x == y by {
      forall x, y | IsFirst(x, s) && IsFirst(y, s) ensures x == y { FirstIsUnique(x, y, s); }
    }
    var x :| x in s && IsFirst(x, s);
    x
  }

  /** The strings of a set in ascending order. */
  function Sorted(s: set<string>): (r: seq<string>)
    ensures |r| == |s| && forall x :: x in r <==> x in s
    ensures forall i, j :: 0 <= i < j < |r| ==> Before(r[i], r[j])
    decreases |s|
  {
    if s == {} then [] else
      var x := First(s);
      var rest := Sorted(s - {x});
      assert forall j :: 0 <= j < |rest| ==> rest[j] in rest;
      [x] + rest
  }
}
