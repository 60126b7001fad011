/** `Vec<String>::sort`: byte order on strings, and the sorted list of a set of them. */
module Sorting {
  import opened Bytes

  predicate Le(a: Str, b: Str) {
    a == [] || (b != [] && (a[0] < b[0] || (a[0] == b[0] && Le(a[1..], b[1..]))))
  }

  lemma {:induction false} LeTotal(a: Str, b: Str)
    ensures Le(a, b) || Le(b, a)
    ensures Le(a, b) && Le(b, a) ==> a == b
    ensures Le(a, a)
  {
    if a != [] {
      if b != [] && a[0] == b[0] {
        LeTotal(a[1..], b[1..]);
        assert a == [a[0]] + a[1..] && b == [b[0]] + b[1..];
      }
      LeTotal(a[1..], a[1..]);
    }
  }

  /** The order is that of the first byte that differs; a prefix comes first. */
  lemma {:induction false} LeIsLexicographic(a: Str, b: Str)
    ensures Le(a, b) <==> a <= b || exists k: nat :: k < |a| && k < |b| && a[..k] == b[..k] && a[k] < b[k]
  {
    if a != [] && b != [] {
      if a[0] == b[0] {
        LeIsLexicographic(a[1..], b[1..]);
        SameHead(a, b);
      } else {
        assert a[..0] == b[..0];
      }
    }
  }

  lemma SameHead(a: Str, b: Str)
    requires a != [] && b != [] && a[0] == b[0]
    ensures a <= b <==> a[1..] <= b[1..]
    ensures (exists k: nat :: k < |a| && k < |b| && a[..k] == b[..k] && a[k] < b[k]) <==>
            (exists k: nat :: k < |a[1..]| && k < |b[1..]| && a[1..][..k] == b[1..][..k] && a[1..][k] < b[1..][k])
  {
    assert a == [a[0]] + a[1..] && b == [b[0]] + b[1..];
    if k: nat :| k < |a| && k < |b| && a[..k] == b[..k] && a[k] < b[k] {
      assert a[1..][..k - 1] == a[..k][1..] && b[1..][..k - 1] == b[..k][1..];
      assert a[1..][k - 1] < b[1..][k - 1];
    }
    if k: nat :| k < |a[1..]| && k < |b[1..]| && a[1..][..k] == b[1..][..k] && a[1..][k] < b[1..][k] {
      assert a[..k + 1] == [a[0]] + a[1..][..k] && b[..k + 1] == [b[0]] + b[1..][..k];
      assert a[k + 1] < b[k + 1];
    }
  }

  lemma {:induction false} LeTransitive(a: Str, b: Str, c: Str)
    requires Le(a, b) && Le(b, c)
    ensures Le(a, c)
  {
    if a != [] && a[0] == b[0] == c[0] {
      LeTransitive(a[1..], b[1..], c[1..]);
    }
  }

  lemma {:induction false} HasLeast(s: set<Str>) returns (x: Str)
    requires s != {}
    ensures x in s && forall y :: y in s ==> Le(x, y)
  {
    var a :| a in s;
    if s == {a} {
      x := a;
      LeTotal(a, a);
    } else {
      var y := HasLeast(s - {a});
      LeTotal(a, y);
      LeTotal(a, a);
      x := if Le(a, y) then a else y;
      forall z | z in s ensures Le(x, z) {
        if z != a && x == a { LeTransitive(a, y, z); }
      }
    }
  }

  /** The least string of a set. */
  function Least(s: set<Str>): (x: Str)
    requires s != {}
    ensures x in s && forall y :: y in s ==> Le(x, y)
  {
    assert exists x :: x in s && forall y :: y in s ==> Le(x, y) by { var x := HasLeast(s); }
    assert forall x, y | x in s && y in s && Le(x, y) && Le(y, x) :: x == y by {
      forall x, y | x in s && y in s && Le(x, y) && Le(y, x) ensures x == y { LeTotal(x, y); }
    }
    var x :| x in s && forall y :: y in s ==> Le(x, y);
    x
  }

  lemma LeastFirst(s: set<Str>, least: Str, rest: seq<Str>)
    requires least in s && forall y :: y in s ==> Le(least, y)
    requires forall x :: x in rest <==> x in s - {least}
    requires forall i, j :: 0 <= i < j < |rest| ==> Le(rest[i], rest[j]) && rest[i] != rest[j]
    ensures var r := [least] + rest;
            && (forall x :: x in r <==> x in s)
            && (forall i, j :: 0 <= i < j < |r| ==> Le(r[i], r[j]) && r[i] != r[j])
  {
    hide Le;
    var r := [least] + rest;
    forall i, j | 0 <= i < j < |r| ensures Le(r[i], r[j]) && r[i] != r[j] {
      assert r[j] == rest[j - 1] && rest[j - 1] in rest;
    }
  }

  /** The elements of a set in increasing order. */
  function Sorted(s: set<Str>): (r: seq<Str>)
    ensures |r| == |s|
    ensures forall x :: x in r <==> x in s
    ensures forall i, j :: 0 <= i < j < |r| ==> Le(r[i], r[j]) && r[i] != r[j]
  {
    if s == {} then []
    else
      var least, rest := Least(s), Sorted(s - {Least(s)});
      LeastFirst(s, least, rest);
      [least] + rest
  }
}
