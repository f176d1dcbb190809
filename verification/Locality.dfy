/** Why the history checker may judge each key on its own: a timed history is
    linearizable over a map of keys exactly when each per-key list that
    Partition returns is linearizable for one key. */
module Locality {
  import opened KvModel
  import opened Collections
  import opened StringOrder

  type Op = Operation<string>
  type History = seq<Op>

  // ---------- Histories and linearizability ----------

  function Key(o: Op): string {
    o.input.key
  }

  /** The operations on one key, in their original order. */
  function OnKey(h: History, k: string): History
    decreases |h|
  {
    if h == [] then []
    else (if Key(h[0]) == k then [h[0]] else []) + OnKey(h[1..], k)
  }

  ghost predicate WellTimed(h: History) {
    forall o | o in h :: o.call <= o.ret
  }

  /** No operation is placed after one that was called only after it returned. */
  ghost predicate RealTime(l: History) {
    forall i, j | 0 <= i < j < |l| :: l[i].call <= l[j].ret
  }

  /** The one-key model accepts l from state st. */
  predicate Explains(st: State<string>, l: History)
    decreases |l|
  {
    l == [] ||
    (var (ok, next) := Step(st, l[0].input, l[0].output); ok && Explains(next, l[1..]))
  }

  const INIT: State<string> := State("", 0)

  ghost predicate LinearizableKey(h: History) {
    exists l: History :: multiset(l) == multiset(h) && RealTime(l) && Explains(INIT, l)
  }

  /** The store that holds all keys; an absent key is in the initial state. */
  type Store = map<string, State<string>>

  function Lookup(m: Store, k: string): State<string> {
    if k in m then m[k] else INIT
  }

  predicate ExplainsAll(m: Store, l: History)
    decreases |l|
  {
    l == [] ||
    (var (ok, next) := Step(Lookup(m, Key(l[0])), l[0].input, l[0].output);
     ok && ExplainsAll(m[Key(l[0]) := next], l[1..]))
  }

  ghost predicate Linearizable(h: History) {
    exists l: History :: multiset(l) == multiset(h) && RealTime(l) && ExplainsAll(map[], l)
  }

  // ---------- The store acts on each key separately ----------

  lemma {:induction false} StoreIsPerKey(m: Store, l: History)
    ensures ExplainsAll(m, l) <==> forall k :: Explains(Lookup(m, k), OnKey(l, k))
    decreases |l|
  {
    if l != [] {
      var k0 := Key(l[0]);
      var (ok, next) := Step(Lookup(m, k0), l[0].input, l[0].output);
      var m' := m[k0 := next];
      StoreIsPerKey(m', l[1..]);
      forall k ensures Explains(Lookup(m, k), OnKey(l, k)) <==>
          (k == k0 ==> ok) && Explains(Lookup(m', k), OnKey(l[1..], k))
      {
        if k == k0 {
          assert OnKey(l, k) == [l[0]] + OnKey(l[1..], k);
          assert OnKey(l, k)[1..] == OnKey(l[1..], k);
        } else {
          assert OnKey(l, k) == OnKey(l[1..], k);
        }
      }
    }
  }

  lemma {:induction false} OnKeyCount(h: History, k: string, o: Op)
    ensures multiset(OnKey(h, k))[o] == if Key(o) == k then multiset(h)[o] else 0
  {
    if h != [] {
      OnKeyCount(h[1..], k, o);
      assert h == [h[0]] + h[1..];
    }
  }

  lemma OnKeySameContents(l: History, h: History, k: string)
    requires multiset(l) == multiset(h)
    ensures multiset(OnKey(l, k)) == multiset(OnKey(h, k))
  {
    forall o ensures multiset(OnKey(l, k))[o] == multiset(OnKey(h, k))[o] {
      OnKeyCount(l, k, o);
      OnKeyCount(h, k, o);
    }
  }

  lemma OnKeyIn(h: History, k: string)
    ensures forall o :: o in OnKey(h, k) <==> o in h && Key(o) == k
  {
    forall o ensures o in OnKey(h, k) <==> o in h && Key(o) == k {
      OnKeyCount(h, k, o);
      assert o in OnKey(h, k) <==> multiset(OnKey(h, k))[o] > 0;
      assert o in h <==> multiset(h)[o] > 0;
    }
  }

  lemma {:induction false} RealTimeOnKey(l: History, k: string)
    requires RealTime(l)
    ensures RealTime(OnKey(l, k))
  {
    if l != [] {
      var rest := OnKey(l[1..], k);
      RealTimeOnKey(l[1..], k);
      OnKeyIn(l[1..], k);
      forall j | 0 <= j < |rest| ensures l[0].call <= rest[j].ret {
        var o := rest[j];
        assert o in rest;
        assert o in l[1..];
        var i :| 0 <= i < |l[1..]| && l[1..][i] == o;
        assert l[i + 1] == o;
      }
    }
  }

  // ---------- Merging two linearizations ----------

  /** May a come before every operation of l? */
  ghost predicate MayPrecede(a: Op, l: History) {
    forall o | o in l :: a.call <= o.ret
  }

  /** The greedy merge: take from the left whenever real time allows it. */
  ghost function Merge(a: History, b: History): History
    decreases |a| + |b|
  {
    if a == [] then b
    else if b == [] then a
    else if (forall o | o in b :: a[0].call <= o.ret) then [a[0]] + Merge(a[1..], b)
    else [b[0]] + Merge(a, b[1..])
  }

  lemma {:induction false} MergeContents(a: History, b: History)
    ensures multiset(Merge(a, b)) == multiset(a) + multiset(b)
    decreases |a| + |b|
  {
    if a != [] && b != [] {
      assert a == [a[0]] + a[1..] && b == [b[0]] + b[1..];
      MergeContents(a[1..], b);
      MergeContents(a, b[1..]);
    }
  }

  lemma MergeIn(a: History, b: History)
    ensures forall o :: o in Merge(a, b) <==> o in a || o in b
  {
    MergeContents(a, b);
    forall o ensures o in Merge(a, b) <==> o in a || o in b {
      assert o in Merge(a, b) <==> multiset(Merge(a, b))[o] > 0;
      assert o in a <==> multiset(a)[o] > 0;
      assert o in b <==> multiset(b)[o] > 0;
    }
  }

  lemma RealTimeCons(x: Op, l: History)
    requires RealTime(l) && MayPrecede(x, l)
    ensures RealTime([x] + l)
  {
    var r := [x] + l;
    forall i, j | 0 <= i < j < |r| ensures r[i].call <= r[j].ret {
      var y := l[j - 1];
      assert y in l;
    }
  }

  lemma RealTimeHead(l: History)
    requires l != [] && RealTime(l) && WellTimed(l)
    ensures MayPrecede(l[0], l) && RealTime(l[1..]) && WellTimed(l[1..])
  {
    forall o | o in l ensures l[0].call <= o.ret {
      var j :| 0 <= j < |l| && l[j] == o;
      if j == 0 {
        assert l[0] in l;
      }
    }
  }

  /** If the head of a must wait for something in b, then the head of b need
      not wait for anything in a: the only place where call <= return counts. */
  lemma OneHeadIsFree(a: History, b: History)
    requires a != [] && b != [] && RealTime(a) && RealTime(b) && WellTimed(a) && WellTimed(b)
    requires !MayPrecede(a[0], b)
    ensures MayPrecede(b[0], a)
  {
    RealTimeHead(a);
    RealTimeHead(b);
    var o :| o in b && o.ret < a[0].call;
    assert b[0].call <= o.ret;
    forall x | x in a ensures b[0].call <= x.ret {
      assert a[0].call <= x.ret;
    }
  }

  lemma {:induction false} MergeKeepsRealTime(a: History, b: History)
    requires RealTime(a) && RealTime(b) && WellTimed(a) && WellTimed(b)
    ensures RealTime(Merge(a, b))
    decreases |a| + |b|
  {
    if a != [] && b != [] {
      RealTimeHead(a);
      RealTimeHead(b);
      if MayPrecede(a[0], b) {
        MergeKeepsRealTime(a[1..], b);
        MergeIn(a[1..], b);
        MayPrecedeTail(a[0], a);
        RealTimeCons(a[0], Merge(a[1..], b));
      } else {
        OneHeadIsFree(a, b);
        MergeKeepsRealTime(a, b[1..]);
        MergeIn(a, b[1..]);
        MayPrecedeTail(b[0], b);
        RealTimeCons(b[0], Merge(a, b[1..]));
      }
    }
  }

  lemma MayPrecedeTail(x: Op, l: History)
    requires l != [] && MayPrecede(x, l)
    ensures MayPrecede(x, l[1..])
  {
    forall o | o in l[1..] ensures o in l {
      var j :| 0 <= j < |l[1..]| && l[1..][j] == o;
      assert l[j + 1] == o;
    }
  }

  ghost predicate Avoids(l: History, k: string) {
    forall o | o in l :: Key(o) != k
  }

  lemma {:induction false} OnKeyAvoided(l: History, k: string)
    requires Avoids(l, k)
    ensures OnKey(l, k) == []
    decreases |l|
  {
    if l != [] {
      var x := l[0];
      assert x in l;
      assert l == [x] + l[1..];
      OnKeyAvoided(l[1..], k);
    }
  }

  /** A merge projects to the side that has the key. */
  lemma OnKeyOfMerge(a: History, b: History, k: string)
    requires Avoids(a, k) || Avoids(b, k)
    ensures OnKey(Merge(a, b), k) == OnKey(a, k) + OnKey(b, k)
  {
    if Avoids(a, k) {
      OnKeyAvoided(a, k);
    } else {
      OnKeyAvoided(b, k);
    }
    OnKeyOfMergeParts(a, b, k);
  }

  lemma {:induction false} OnKeyOfMergeParts(a: History, b: History, k: string)
    requires OnKey(a, k) == [] || OnKey(b, k) == []
    ensures OnKey(Merge(a, b), k) == OnKey(a, k) + OnKey(b, k)
    decreases |a| + |b|
  {
    if a != [] && b != [] {
      if MayPrecede(a[0], b) {
        var m := Merge(a[1..], b);
        OnKeyOfMergeParts(a[1..], b, k);
        assert ([a[0]] + m)[1..] == m;
      } else {
        var m := Merge(a, b[1..]);
        OnKeyOfMergeParts(a, b[1..], k);
        assert ([b[0]] + m)[1..] == m;
      }
    }
  }

  // ---------- Locality ----------

  /** The keys of a history, each once. */
  function KeySet(h: History): set<string> {
    set o | o in h :: Key(o)
  }

  /** l holds exactly the operations of h whose keys are in ks. */
  ghost predicate Restricts(l: History, h: History, ks: set<string>) {
    forall o :: multiset(l)[o] == if Key(o) in ks then multiset(h)[o] else 0
  }

  lemma KeyWitness(h: History) returns (l: History)
    requires LinearizableKey(h)
    ensures multiset(l) == multiset(h) && RealTime(l) && Explains(INIT, l)
  {
    l :| multiset(l) == multiset(h) && RealTime(l) && Explains(INIT, l);
  }

  /** Merge the per-key linearizations of the keys in ks. */
  lemma {:induction false} MergeKeys(h: History, ks: set<string>) returns (l: History)
    requires WellTimed(h) && forall k | k in ks :: LinearizableKey(OnKey(h, k))
    ensures Restricts(l, h, ks) && RealTime(l) && WellTimed(l)
    ensures forall k | k in ks :: Explains(INIT, OnKey(l, k))
    decreases ks
  {
    if ks == {} {
      return [];
    }
    var k := Pick(ks);
    var a := MergeKeys(h, ks - {k});
    var b := KeyWitness(OnKey(h, k));
    RestrictsToKey(b, h, k);
    MergeOneKey(h, ks - {k}, ks, k, a, b);
    l := Merge(a, b);
  }

  lemma MergeOneKey(h: History, ks: set<string>, all: set<string>, k: string, a: History, b: History)
    requires WellTimed(h) && k !in ks && all == ks + {k}
    requires Restricts(a, h, ks) && RealTime(a) && forall j | j in ks :: Explains(INIT, OnKey(a, j))
    requires Restricts(b, h, {k}) && RealTime(b) && Explains(INIT, b)
    ensures var l := Merge(a, b);
      Restricts(l, h, all) && RealTime(l) && WellTimed(l) &&
      forall j | j in all :: Explains(INIT, OnKey(l, j))
  {
    var l := Merge(a, b);
    RestrictedIn(a, h, ks);
    RestrictedIn(b, h, {k});
    MergeKeepsRealTime(a, b);
    MergeRestricts(a, b, h, ks, k);
    RestrictedIn(l, h, all);
    forall j | j in all ensures Explains(INIT, OnKey(l, j)) {
      OnKeyOfMerge(a, b, j);
      if j == k {
        OnKeyAvoided(a, k);
        OnlyKey(b, k);
        assert [] + b == b;
      } else {
        OnKeyAvoided(b, j);
        assert OnKey(a, j) + [] == OnKey(a, j);
      }
    }
  }

  lemma MergeRestricts(a: History, b: History, h: History, ks: set<string>, k: string)
    requires Restricts(a, h, ks) && Restricts(b, h, {k}) && k !in ks
    ensures Restricts(Merge(a, b), h, ks + {k})
  {
    MergeContents(a, b);
  }

  lemma RestrictsToKey(b: History, h: History, k: string)
    requires multiset(b) == multiset(OnKey(h, k))
    ensures Restricts(b, h, {k})
  {
    forall o ensures multiset(b)[o] == if Key(o) in {k} then multiset(h)[o] else 0 {
      OnKeyCount(h, k, o);
    }
  }

  lemma RestrictedIn(l: History, h: History, ks: set<string>)
    requires Restricts(l, h, ks) && WellTimed(h)
    ensures forall o | o in l :: o in h && Key(o) in ks
    ensures WellTimed(l)
    ensures forall k | k !in ks :: Avoids(l, k)
  {
    forall o | o in l ensures o in h && Key(o) in ks {
      assert multiset(l)[o] > 0;
    }
  }

  lemma {:induction false} OnlyKey(l: History, k: string)
    requires forall o | o in l :: Key(o) == k
    ensures OnKey(l, k) == l
  {
    if l != [] {
      var o := l[0];
      assert o in l;
      forall p | p in l[1..] ensures Key(p) == k {
        assert l == [l[0]] + l[1..];
      }
      OnlyKey(l[1..], k);
    }
  }

  lemma WholeImpliesParts(h: History, l: History, k: string)
    requires multiset(l) == multiset(h) && RealTime(l) && ExplainsAll(map[], l)
    ensures LinearizableKey(OnKey(h, k))
  {
    StoreIsPerKey(map[], l);
    OnKeySameContents(l, h, k);
    RealTimeOnKey(l, k);
    assert Explains(Lookup(map[], k), OnKey(l, k));
  }

  lemma PartsImplyWhole(h: History)
    requires WellTimed(h) && forall k | k in KeySet(h) :: LinearizableKey(OnKey(h, k))
    ensures Linearizable(h)
  {
    var l := MergeKeys(h, KeySet(h));
    forall o ensures multiset(l)[o] == multiset(h)[o] {
      assert o in h ==> Key(o) in KeySet(h);
      assert o !in h ==> multiset(h)[o] == 0;
    }
    assert multiset(l) == multiset(h);
    RestrictedIn(l, h, KeySet(h));
    forall k ensures Explains(Lookup(map[], k), OnKey(l, k)) {
      if k !in KeySet(h) {
        OnKeyAvoided(l, k);
      }
    }
    StoreIsPerKey(map[], l);
  }

  /** Locality: a timed history is linearizable over the whole store if and
      only if its operations on each key are linearizable for that key. */
  lemma LocalityTheorem(h: History)
    requires WellTimed(h)
    ensures Linearizable(h) <==> forall k | k in KeySet(h) :: LinearizableKey(OnKey(h, k))
  {
    if l: History :| multiset(l) == multiset(h) && RealTime(l) && ExplainsAll(map[], l) {
      forall k | k in KeySet(h) ensures LinearizableKey(OnKey(h, k)) {
        WholeImpliesParts(h, l, k);
      }
    } else if forall k | k in KeySet(h) :: LinearizableKey(OnKey(h, k)) {
      PartsImplyWhole(h);
    }
  }

  /** call <= return is needed: these two operations each form a linearizable
      one-key history, yet each returned before the other was called. */
  lemma LocalityNeedsOrderedTimes(a: Op, b: Op)
    requires a == Operation(Input(0, "a", "", 0), Output("", 0, OK), 10, 0, 0)
    requires b == Operation(Input(0, "b", "", 0), Output("", 0, OK), 5, 6, 1)
    ensures LinearizableKey(OnKey([a, b], "a")) && LinearizableKey(OnKey([a, b], "b"))
    ensures !Linearizable([a, b])
  {
    assert Key(a) == "a" && Key(b) == "b" && "a"[0] != "b"[0];
    OneGet(a);
    OneGet(b);
    PairOnKey(a, b, "a");
    PairOnKey(a, b, "b");
    forall l: History | multiset(l) == multiset([a, b]) ensures !RealTime(l) {
      TwoOrders(l, a, b);
      assert l[0].call > l[1].ret;
    }
  }

  lemma PairOnKey(a: Op, b: Op, k: string)
    ensures OnKey([a, b], k) == (if Key(a) == k then [a] else []) + (if Key(b) == k then [b] else [])
  {
    var one: History := [b];
    assert one[1..] == [];
    assert OnKey(one, k) == if Key(b) == k then [b] else [];
    assert [a, b][1..] == one;
  }

  lemma OneGet(o: Op)
    requires o.input.op == 0 && o.output.value == ""
    ensures LinearizableKey([o])
  {
    assert RealTime([o]);
    assert Explains(INIT, []) && [o][1..] == [];
    assert Explains(INIT, [o]);
  }

  lemma TwoOrders(l: History, a: Op, b: Op)
    requires multiset(l) == multiset([a, b])
    ensures l == [a, b] || l == [b, a]
  {
    assert |l| == |multiset(l)| == 2;
    assert l == [l[0], l[1]];
    assert multiset([l[0], l[1]]) == multiset{l[0], l[1]} == multiset{a, b};
    assert l[0] in multiset{a, b};
    assert multiset{l[0], l[1]} - multiset{l[0]} == multiset{l[1]};
  }

  // ---------- Partition ----------

  ghost predicate Distinct<T>(s: seq<T>) {
    forall i, j | 0 <= i < j < |s| :: s[i] != s[j]
  }

  /** parts are the per-key lists of h, one for each key, in key order. */
  ghost predicate IsPartition(h: History, keys: seq<string>, parts: seq<History>) {
    && Sorted(keys) && Distinct(keys)
    && (forall k :: k in keys <==> k in KeySet(h))
    && |parts| == |keys|
    && (forall i | 0 <= i < |keys| :: parts[i] == OnKey(h, keys[i]))
  }

  /** parts are the per-key lists of h. */
  ghost predicate Partitions(h: History, parts: seq<History>) {
    exists keys :: IsPartition(h, keys, parts)
  }

  method Partition(h: History) returns (parts: seq<History>)
    ensures Partitions(h, parts)
  {
    var m := GroupByKey(h);
    var order := Enumerate(m.Keys);
    order := SortDistinct(order);
    parts := [];
    for i := 0 to |order|
      invariant |parts| == i && forall j | 0 <= j < i :: parts[j] == OnKey(h, order[j])
    {
      var k := order[i];
      assert k in order && k in m.Keys;
      assert Group(m, k) == OnKey(h, k);
      parts := parts + [m[k]];
    }
    assert IsPartition(h, order, parts);
  }

  function Group(m: map<string, History>, k: string): History {
    if k in m then m[k] else []
  }

  ghost predicate Grouped(m: map<string, History>, h: History) {
    m.Keys == KeySet(h) && forall k :: Group(m, k) == OnKey(h, k)
  }

  method GroupByKey(h: History) returns (m: map<string, History>)
    ensures Grouped(m, h)
  {
    m := map[];
    for i := 0 to |h|
      invariant Grouped(m, h[..i])
    {
      var key := Key(h[i]);
      GroupOneMore(m, h[..i], h[i]);
      m := m[key := Group(m, key) + [h[i]]];
      assert h[..i + 1] == h[..i] + [h[i]];
    }
    assert h[..|h|] == h;
  }

  lemma GroupOneMore(m: map<string, History>, h: History, o: Op)
    requires Grouped(m, h)
    ensures Grouped(m[Key(o) := Group(m, Key(o)) + [o]], h + [o])
  {
    var m' := m[Key(o) := Group(m, Key(o)) + [o]];
    forall k ensures Group(m', k) == OnKey(h + [o], k) {
      OnKeyAppend(h, o, k);
      assert Group(m, k) == OnKey(h, k);
    }
    KeySetAppend(h, o);
  }

  lemma KeySetAppend(h: History, o: Op)
    ensures KeySet(h + [o]) == KeySet(h) + {Key(o)}
  {
    forall p ensures p in h + [o] <==> p in h || p == o {
    }
  }

  lemma {:induction false} OnKeyAppend(h: History, o: Op, k: string)
    ensures OnKey(h + [o], k) == OnKey(h, k) + if Key(o) == k then [o] else []
  {
    var r := h + [o];
    if h == [] {
      assert r[0] == o && r[1..] == [];
    } else {
      assert r[0] == h[0] && r[1..] == h[1..] + [o];
      OnKeyAppend(h[1..], o, k);
      var first: History := if Key(h[0]) == k then [h[0]] else [];
      var last: History := if Key(o) == k then [o] else [];
      assert first + (OnKey(h[1..], k) + last) == first + OnKey(h[1..], k) + last;
    }
  }

  /** The keys of a map, in whatever order it yields them. */
  method Enumerate(ks: set<string>) returns (s: seq<string>)
    ensures Distinct(s) && forall k :: k in s <==> k in ks
  {
    s := [];
    var todo := ks;
    while todo != {}
      invariant todo <= ks && Distinct(s)
      invariant forall k :: k in s <==> k in ks - todo
      decreases todo
    {
      var k := PickAny(todo);
      forall i | 0 <= i < |s| ensures s[i] != k {
        var x := s[i];
        assert x in s;
      }
      s := s + [k];
      todo := todo - {k};
    }
  }

  method SortDistinct(s: seq<string>) returns (r: seq<string>)
    requires Distinct(s)
    ensures Sorted(r) && Distinct(r) && forall k :: k in r <==> k in s
  {
    r := Sort(s);
    SameContents(s, r);
  }

  lemma SameContents(s: seq<string>, r: seq<string>)
    requires Distinct(s) && multiset(r) == multiset(s)
    ensures Distinct(r) && forall k :: k in r <==> k in s
  {
    forall k ensures k in r <==> k in s {
      assert k in r <==> k in multiset(r);
      assert k in s <==> k in multiset(s);
    }
    forall i, j | 0 <= i < j < |r| ensures r[i] != r[j] {
      DistinctCounts(s, r[i]);
      OnceMeansOnePlace(r, i, j);
    }
  }

  lemma OnceMeansOnePlace(r: seq<string>, i: nat, j: nat)
    requires i < j < |r| && multiset(r)[r[i]] <= 1
    ensures r[i] != r[j]
  {
    var x, front := r[i], r[..j];
    assert r == front + [r[j]] + r[j + 1..];
    assert front[i] == x;
    assert multiset(front)[x] >= 1;
    assert multiset(r)[x] == multiset(front)[x] + multiset([r[j]])[x] + multiset(r[j + 1..])[x];
  }

  lemma {:induction false} DistinctCounts(s: seq<string>, x: string)
    requires Distinct(s)
    ensures multiset(s)[x] <= 1
  {
    if s != [] {
      DistinctCounts(s[1..], x);
      assert s == [s[0]] + s[1..];
      forall i | 0 <= i < |s[1..]| ensures s[1..][i] != s[0] {
        assert s[i + 1] != s[0];
      }
      assert s[0] !in s[1..];
      assert multiset(s[1..])[s[0]] == 0;
    }
  }

  /** Checking the lists that Partition returns, each against the one-key
      model, decides linearizability of the whole history. */
  lemma PartitionDecides(h: History, parts: seq<History>)
    requires WellTimed(h) && Partitions(h, parts)
    ensures Linearizable(h) <==> forall i | 0 <= i < |parts| :: LinearizableKey(parts[i])
  {
    var keys :| IsPartition(h, keys, parts);
    LocalityTheorem(h);
    if forall i | 0 <= i < |parts| :: LinearizableKey(parts[i]) {
      forall k | k in KeySet(h) ensures LinearizableKey(OnKey(h, k)) {
        assert k in keys;
        var i :| 0 <= i < |keys| && keys[i] == k;
        assert LinearizableKey(parts[i]);
      }
    }
    if forall k | k in KeySet(h) :: LinearizableKey(OnKey(h, k)) {
      forall i | 0 <= i < |parts| ensures LinearizableKey(parts[i]) {
        var k := keys[i];
        assert k in keys;
      }
    }
  }

  ghost function Concat(parts: seq<History>): History {
    if parts == [] then [] else Concat(parts[..|parts| - 1]) + parts[|parts| - 1]
  }

  /** Partition loses and duplicates nothing. */
  lemma PartitionKeepsAll(h: History, parts: seq<History>)
    requires Partitions(h, parts)
    ensures multiset(Concat(parts)) == multiset(h)
  {
    var keys :| IsPartition(h, keys, parts);
    forall o ensures multiset(Concat(parts))[o] == multiset(h)[o] {
      ConcatCount(h, keys, parts, o);
      assert o in h ==> Key(o) in KeySet(h);
      assert o !in h ==> multiset(h)[o] == 0;
    }
  }

  lemma {:induction false} ConcatCount(h: History, keys: seq<string>, parts: seq<History>, o: Op)
    requires |parts| == |keys| && Distinct(keys)
    requires forall i | 0 <= i < |keys| :: parts[i] == OnKey(h, keys[i])
    ensures multiset(Concat(parts))[o] == if Key(o) in keys then multiset(h)[o] else 0
  {
    if parts != [] {
      var n := |parts| - 1;
      ConcatCount(h, keys[..n], parts[..n], o);
      OnKeyCount(h, keys[n], o);
      assert keys == keys[..n] + [keys[n]];
      if Key(o) in keys[..n] {
        var i :| 0 <= i < n && keys[..n][i] == Key(o);
        assert keys[i] != keys[n];
      }
    }
  }
}
