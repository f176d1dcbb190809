/** Small facts about collections that several components share. */
module Collections {
  lemma HasElement<T>(s: set<T>)
    requires s != {}
    ensures exists x :: x in s
  {
  }

  ghost function Pick<T>(s: set<T>): (x: T)
    requires s != {}
    ensures x in s
  {
    HasElement(s);
    var x :| x in s;
    x
  }

  /** Any element: the order in which a Go `range` visits a map. */
  method PickAny<T>(s: set<T>) returns (x: T)
    requires s != {}
    ensures x in s
  {
    HasElement(s);
    x :| x in s;
  }

  /** Taking out the element at i. */
  lemma RemoveAt<T>(s: seq<T>, i: nat)
    requires i < |s|
    ensures multiset(s[..i] + s[i + 1..]) == multiset(s) - multiset{s[i]}
  {
    assert s == s[..i] + [s[i]] + s[i + 1..];
  }

  lemma TakeFirst<T>(s: seq<T>)
    requires s != []
    ensures multiset(s[1..]) == multiset(s) - multiset{s[0]}
  {
    assert s == [s[0]] + s[1..];
  }

  lemma SameParts<T>(s: seq<T>, t: seq<T>)
    requires s != [] && t != [] && s[0] == t[0] && s[1..] == t[1..]
    ensures s == t
  {
    assert s == [s[0]] + s[1..] && t == [t[0]] + t[1..];
  }

  lemma TakeOneMore<T>(s: seq<T>, k: nat)
    requires k < |s|
    ensures s[..k + 1] == s[..k] + [s[k]]
  {
  }

  lemma Around<T>(s: seq<T>, k: nat)
    requires k < |s|
    ensures s == s[..k] + [s[k]] + s[k + 1..]
  {
  }

  lemma TakeSplit<T>(s: seq<T>, i: nat, j: nat)
    requires i <= j <= |s|
    ensures s[..j] == s[..i] + s[i..j]
  {
  }

  lemma ReplaceLast<T>(s: seq<T>, x: T, y: T)
    ensures (s + [x])[|s| := y] == s + [y]
  {
  }

  lemma NoMoreThan<T>(a: set<T>, b: set<T>)
    requires forall x | x in a :: x in b
    ensures |a| <= |b|
  {
    assert b == a + (b - a);
  }

  /** Without repetitions a sequence has as many elements as places. */
  lemma {:induction false} DistinctCount<T>(s: seq<T>)
    requires forall i, j | 0 <= i < j < |s| :: s[i] != s[j]
    ensures |set x | x in s| == |s|
  {
    if s != [] {
      var front, x := s[..|s| - 1], s[|s| - 1];
      DistinctCount(front);
      assert s == front + [x];
      assert (set y | y in s) == (set y | y in front) + {x};
      assert x !in front;
    }
  }

  lemma FindIn<T>(s: seq<T>, x: T) returns (i: nat)
    requires x in multiset(s)
    ensures i < |s| && s[i] == x
  {
    i :| 0 <= i < |s| && s[i] == x;
  }

  /** Visiting one more key of m. */
  lemma OneMoreEntry<K, V>(m: map<K, V>, todo: set<K>, k: K)
    requires k in todo && k in m
    ensures (m - todo)[k := m[k]] == m - (todo - {k})
  {
    assert ((m - todo)[k := m[k]]).Keys == (m - (todo - {k})).Keys;
  }

  ghost function Sum(s: set<int>, f: int -> int): int {
    if s == {} then 0
    else var x := Pick(s); f(x) + Sum(s - {x}, f)
  }

  lemma {:induction false} SumSplit(s: set<int>, f: int -> int, x: int)
    requires x in s
    ensures Sum(s, f) == f(x) + Sum(s - {x}, f)
  {
    var y := Pick(s);
    if y != x {
      SumSplit(s - {y}, f, x);
      SumSplit(s - {x}, f, y);
      assert s - {y} - {x} == s - {x} - {y};
    }
  }

  lemma {:induction false} SumUnion(a: set<int>, b: set<int>, f: int -> int)
    requires a !! b
    ensures Sum(a + b, f) == Sum(a, f) + Sum(b, f)
  {
    if a == {} {
      assert a + b == b;
    } else {
      var x := Pick(a);
      SumSplit(a + b, f, x);
      SumSplit(a, f, x);
      SumUnion(a - {x}, b, f);
      assert a + b - {x} == (a - {x}) + b;
    }
  }
}
