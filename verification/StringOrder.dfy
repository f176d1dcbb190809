/** The order of strings, and sorting as Go's sort package promises it: some
    sorted permutation. */
module StringOrder {
  import opened Collections

  predicate Le(a: string, b: string) {
    a == [] || (b != [] && (a[0] < b[0] || (a[0] == b[0] && Le(a[1..], b[1..]))))
  }

  /** a comes first if it is a prefix of b, or is smaller where they first differ. */
  lemma {:induction false} LeMeans(a: string, b: string)
    ensures Le(a, b) <==> a <= b || exists k | 0 <= k < |a| && k < |b| :: a[..k] == b[..k] && a[k] < b[k]
  {
    if a != [] && b != [] {
      var p, q := a[1..], b[1..];
      LeMeans(p, q);
      assert a == [a[0]] + p && b == [b[0]] + q;
      if a[0] < b[0] {
        assert a[..0] == b[..0];
      } else if a[0] == b[0] {
        if k :| 0 <= k < |p| && k < |q| && p[..k] == q[..k] && p[k] < q[k] {
          assert a[..k + 1] == [a[0]] + p[..k] && b[..k + 1] == [b[0]] + q[..k];
          assert a[k + 1] < b[k + 1];
        }
        if k :| 0 <= k < |a| && k < |b| && a[..k] == b[..k] && a[k] < b[k] {
          assert a[..k][1..] == p[..k - 1] && b[..k][1..] == q[..k - 1];
          assert p[k - 1] < q[k - 1];
        }
      } else {
        forall k | 0 < k < |a| && k < |b| ensures a[..k] != b[..k] {
          assert a[..k][0] != b[..k][0];
        }
      }
    }
  }

  ghost predicate Sorted(s: seq<string>) {
    forall i, j | 0 <= i < j < |s| :: Le(s[i], s[j])
  }

  lemma {:induction false} LeTotal(a: string, b: string)
    ensures Le(a, b) || Le(b, a)
  {
    if a != [] && b != [] && a[0] == b[0] {
      LeTotal(a[1..], b[1..]);
    }
  }

  lemma {:induction false} LeTransitive(a: string, b: string, c: string)
    requires Le(a, b) && Le(b, c)
    ensures Le(a, c)
  {
    if a != [] && a[0] == b[0] == c[0] {
      LeTransitive(a[1..], b[1..], c[1..]);
    }
  }

  lemma {:induction false} LeAntisymmetric(a: string, b: string)
    requires Le(a, b) && Le(b, a)
    ensures a == b
  {
    if a != [] {
      LeAntisymmetric(a[1..], b[1..]);
      assert a == [a[0]] + a[1..] && b == [b[0]] + b[1..];
    }
  }

  lemma SameHead(s: seq<string>, t: seq<string>)
    requires Sorted(s) && Sorted(t) && multiset(s) == multiset(t) && s != [] && t != []
    ensures s[0] == t[0]
  {
    var x, y := s[0], t[0];
    assert x in multiset(s) && y in multiset(t);
    var i := FindIn(t, x);
    var j := FindIn(s, y);
    LeTotal(x, x);
    LeTotal(y, y);
    assert Le(x, y) && Le(y, x);
    LeAntisymmetric(x, y);
  }

  /** A sorted sequence is determined by its contents. */
  lemma {:induction false} SortedIsUnique(s: seq<string>, t: seq<string>)
    requires Sorted(s) && Sorted(t) && multiset(s) == multiset(t)
    ensures s == t
  {
    assert |s| == |multiset(s)| == |multiset(t)| == |t|;
    if s != [] {
      SameHead(s, t);
      TakeFirst(s);
      TakeFirst(t);
      SortedIsUnique(s[1..], t[1..]);
      SameParts(s, t);
    }
  }

  function Insert(s: seq<string>, x: string): (r: seq<string>)
    requires Sorted(s)
    ensures Sorted(r) && multiset(r) == multiset(s) + multiset{x}
  {
    if s == [] || Le(x, s[0]) then
      InsertFront(s, x);
      [x] + s
    else
      assert s == [s[0]] + s[1..];
      var rest := Insert(s[1..], x);
      InsertBehind(s, x, rest);
      [s[0]] + rest
  }

  lemma InsertFront(s: seq<string>, x: string)
    requires Sorted(s) && (s == [] || Le(x, s[0]))
    ensures Sorted([x] + s)
  {
    forall j | 0 < j < |s| ensures Le(x, s[j]) {
      LeTransitive(x, s[0], s[j]);
    }
  }

  lemma InsertBehind(s: seq<string>, x: string, rest: seq<string>)
    requires s != [] && Sorted(s) && !Le(x, s[0])
    requires Sorted(rest) && multiset(rest) == multiset(s[1..]) + multiset{x}
    ensures Sorted([s[0]] + rest)
  {
    LeTotal(x, s[0]);
    forall j | 0 <= j < |rest| ensures Le(s[0], rest[j]) {
      var y := rest[j];
      assert y in multiset(rest);
      assert y == x || y in s[1..];
    }
  }

  /** What sort.Strings leaves in its argument. */
  function Sort(s: seq<string>): (r: seq<string>)
    ensures Sorted(r) && multiset(r) == multiset(s)
  {
    if s == [] then []
    else
      assert s == s[..|s| - 1] + [s[|s| - 1]];
      Insert(Sort(s[..|s| - 1]), s[|s| - 1])
  }
}
