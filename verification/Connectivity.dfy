/** Which of a group's client ends are enabled, and how connecting,
    disconnecting, partitioning and restarting servers change that. */
module Connectivity {
  /** connected[i]: server i counts as being on the network. on[i][j]: the end
      from server i to server j is enabled. */
  datatype Matrix = Matrix(connected: seq<bool>, on: seq<seq<bool>>)

  ghost predicate Shape(m: Matrix, n: nat) {
    |m.connected| == n && |m.on| == n && forall a | 0 <= a < n :: |m.on[a]| == n
  }

  ghost predicate On(m: Matrix, a: int, b: int) {
    0 <= a < |m.on| && 0 <= b < |m.on[a]| && m.on[a][b]
  }

  ghost predicate InRange(s: seq<nat>, n: nat) {
    forall k | 0 <= k < |s| :: s[k] < n
  }

  lemma SameMatrix(m: Matrix, m': Matrix, n: nat)
    requires Shape(m, n) && Shape(m', n) && m.connected == m'.connected
    requires forall a, b | 0 <= a < n && 0 <= b < n :: On(m, a, b) <==> On(m', a, b)
    ensures m == m'
  {
    forall a | 0 <= a < n ensures m.on[a] == m'.on[a] {
      forall b | 0 <= b < n ensures m.on[a][b] == m'.on[a][b] {
        assert On(m, a, b) <==> On(m', a, b);
      }
    }
  }

  ghost function Build(connected: seq<bool>, on: (int, int) -> bool): (m: Matrix)
    ensures Shape(m, |connected|)
    ensures forall a, b | 0 <= a < |connected| && 0 <= b < |connected| :: On(m, a, b) == on(a, b)
    ensures m.connected == connected
  {
    var n := |connected|;
    Matrix(connected, seq(n, a => seq(n, b => on(a, b))))
  }

  /** Server i joins: both directions to every listed server that is connected
      by then, itself included. */
  ghost function Connect(m: Matrix, i: nat, to: seq<nat>): Matrix
    requires i < |m.connected| && InRange(to, |m.connected|)
  {
    var c := m.connected[i := true];
    Build(c, (a, b) =>
      On(m, a, b) || (a == i && b in to && 0 <= b < |c| && c[b]) || (b == i && a in to && 0 <= a < |c| && c[a]))
  }

  /** Server i leaves: both directions to every listed server are cut. */
  ghost function Disconnect(m: Matrix, i: nat, from: seq<nat>): Matrix
    requires i < |m.connected|
  {
    Build(m.connected[i := false], (a, b) =>
      On(m, a, b) && !(a == i && b in from) && !(b == i && a in from))
  }

  /** A restarted server has fresh ends, none enabled yet. */
  ghost function Restart(m: Matrix, i: nat): Matrix {
    Build(m.connected, (a, b) => On(m, a, b) && a != i)
  }

  function All(n: nat): (s: seq<nat>)
    ensures |s| == n && forall k | 0 <= k < n :: s[k] == k
    ensures forall k :: k in s <==> 0 <= k < n
  {
    if n == 0 then [] else All(n - 1) + [n - 1]
  }

  /** Connect servers k.. to everybody, in order. */
  ghost function ConnectRest(m: Matrix, k: nat): Matrix
    requires k <= |m.connected|
    decreases |m.connected| - k
  {
    if k == |m.connected| then m
    else ConnectRest(Connect(m, k, All(|m.connected|)), k + 1)
  }

  /** Which ends each operation leaves enabled, and who is connected then. */
  lemma ConnectMeans(m: Matrix, i: nat, to: seq<nat>, a: nat, b: nat)
    requires i < |m.connected| && InRange(to, |m.connected|) && a < |m.connected| && b < |m.connected|
    ensures var m' := Connect(m, i, to);
      && m'.connected == m.connected[i := true]
      && (On(m', a, b) <==>
           || On(m, a, b)
           || (a == i && b in to && (b == i || m.connected[b]))
           || (b == i && a in to && (a == i || m.connected[a])))
  {
  }

  lemma DisconnectMeans(m: Matrix, i: nat, from: seq<nat>, a: nat, b: nat)
    requires i < |m.connected| && a < |m.connected| && b < |m.connected|
    ensures var m' := Disconnect(m, i, from);
      && m'.connected == m.connected[i := false]
      && (On(m', a, b) <==> On(m, a, b) && !(a == i && b in from) && !(b == i && a in from))
  {
  }

  lemma RestartMeans(m: Matrix, i: nat, a: nat, b: nat)
    requires a < |m.connected| && b < |m.connected|
    ensures Restart(m, i).connected == m.connected && (On(Restart(m, i), a, b) <==> On(m, a, b) && a != i)
  {
  }

  // ---------- Runs without partitions ----------

  datatype Op = ConnectOne(i: nat) | ConnectAll | DisconnectAll(i: nat) | ShutdownServer(i: nat) | StartServer(i: nat)

  ghost function Do(m: Matrix, op: Op): Matrix
    requires op.ConnectAll? || op.i < |m.connected|
  {
    var all := All(|m.connected|);
    match op
    case ConnectOne(i) => Connect(m, i, all)
    case ConnectAll => ConnectRest(m, 0)
    case DisconnectAll(i) => Disconnect(m, i, all)
    case ShutdownServer(i) => Disconnect(m, i, all)
    case StartServer(i) => Restart(m, i)
  }

  /** connected tells the whole truth: an end works exactly when both its
      servers are connected. */
  ghost predicate Precise(m: Matrix) {
    && Shape(m, |m.connected|)
    && forall a, b | 0 <= a < |m.connected| && 0 <= b < |m.connected| :: On(m, a, b) <==> m.connected[a] && m.connected[b]
  }

  lemma ConnectKeepsPrecise(m: Matrix, i: nat)
    requires Precise(m) && i < |m.connected|
    ensures Precise(Connect(m, i, All(|m.connected|)))
  {
    var n := |m.connected|;
    var m' := Connect(m, i, All(n));
    assert |m'.connected| == n;
    forall a, b | 0 <= a < n && 0 <= b < n ensures On(m', a, b) <==> m'.connected[a] && m'.connected[b] {
      assert On(m, a, b) <==> m.connected[a] && m.connected[b];
    }
  }

  lemma {:induction false} ConnectRestKeepsPrecise(m: Matrix, k: nat)
    requires Precise(m) && k <= |m.connected|
    ensures Precise(ConnectRest(m, k)) && |ConnectRest(m, k).connected| == |m.connected|
    decreases |m.connected| - k
  {
    if k < |m.connected| {
      ConnectKeepsPrecise(m, k);
      ConnectRestKeepsPrecise(Connect(m, k, All(|m.connected|)), k + 1);
    }
  }

  lemma DisconnectKeepsPrecise(m: Matrix, i: nat)
    requires Precise(m) && i < |m.connected|
    ensures Precise(Disconnect(m, i, All(|m.connected|)))
  {
    var n := |m.connected|;
    var m' := Disconnect(m, i, All(n));
    assert |m'.connected| == n;
    forall a, b | 0 <= a < n && 0 <= b < n ensures On(m', a, b) <==> m'.connected[a] && m'.connected[b] {
      assert On(m, a, b) <==> m.connected[a] && m.connected[b];
    }
  }

  /** Starting a server keeps `connected` precise if and only if the server was
      disconnected. */
  lemma RestartPrecision(m: Matrix, i: nat)
    requires Precise(m) && i < |m.connected|
    ensures Precise(Restart(m, i)) <==> !m.connected[i]
  {
    var n := |m.connected|;
    var m' := Restart(m, i);
    if m.connected[i] {
      assert !On(m', i, i);
    } else {
      forall a, b | 0 <= a < n && 0 <= b < n ensures On(m', a, b) <==> m'.connected[a] && m'.connected[b] {
        assert On(m, a, b) <==> m.connected[a] && m.connected[b];
      }
    }
  }

  lemma OpKeepsPrecise(m: Matrix, op: Op)
    requires Precise(m) && (op.ConnectAll? || op.i < |m.connected|)
    requires op.StartServer? ==> !m.connected[op.i]
    ensures Precise(Do(m, op)) && |Do(m, op).connected| == |m.connected|
  {
    match op
    case ConnectOne(i) => ConnectKeepsPrecise(m, i);
    case ConnectAll => ConnectRestKeepsPrecise(m, 0);
    case DisconnectAll(i) => DisconnectKeepsPrecise(m, i);
    case ShutdownServer(i) => DisconnectKeepsPrecise(m, i);
    case StartServer(i) => RestartPrecision(m, i);
  }

  /** Operations on existing servers that start only disconnected ones. */
  ghost predicate Legal(m: Matrix, ops: seq<Op>)
    decreases |ops|
  {
    ops == [] ||
    ((ops[0].ConnectAll? || ops[0].i < |m.connected|) &&
     (ops[0].StartServer? ==> !m.connected[ops[0].i]) && Legal(Do(m, ops[0]), ops[1..]))
  }

  ghost function Run(m: Matrix, ops: seq<Op>): Matrix
    requires Legal(m, ops)
    decreases |ops|
  {
    if ops == [] then m else Run(Do(m, ops[0]), ops[1..])
  }

  ghost function Initial(n: nat): Matrix {
    Build(seq(n, _ => false), (a, b) => false)
  }

  lemma {:induction false} RunKeepsPrecise(m: Matrix, ops: seq<Op>)
    requires Precise(m) && Legal(m, ops)
    ensures Precise(Run(m, ops)) && |Run(m, ops).connected| == |m.connected|
    decreases |ops|
  {
    if ops != [] {
      OpKeepsPrecise(m, ops[0]);
      RunKeepsPrecise(Do(m, ops[0]), ops[1..]);
    }
  }

  /** Without partitions, `connected` is precise over every run. */
  lemma ConnectedIsPrecise(n: nat, ops: seq<Op>, a: nat, b: nat)
    requires Legal(Initial(n), ops) && a < n && b < n
    ensures var m := Run(Initial(n), ops);
      |m.connected| == n && (On(m, a, b) <==> m.connected[a] && m.connected[b])
  {
    assert Precise(Initial(n));
    RunKeepsPrecise(Initial(n), ops);
  }

  // ---------- Partitions ----------

  /** Servers side[k..] each leave the other side and join their own. */
  ghost function Split(m: Matrix, side: seq<nat>, other: seq<nat>, k: nat): Matrix
    requires k <= |side| && InRange(side, |m.connected|) && InRange(other, |m.connected|)
    decreases |side| - k
  {
    if k == |side| then m
    else Split(Connect(Disconnect(m, side[k], other), side[k], side), side, other, k + 1)
  }

  ghost function Partition(m: Matrix, p1: seq<nat>, p2: seq<nat>): (r: Matrix)
    requires InRange(p1, |m.connected|) && InRange(p2, |m.connected|)
  {
    SplitSize(m, p1, p2, 0);
    Split(Split(m, p1, p2, 0), p2, p1, 0)
  }

  lemma {:induction false} SplitSize(m: Matrix, side: seq<nat>, other: seq<nat>, k: nat)
    requires k <= |side| && InRange(side, |m.connected|) && InRange(other, |m.connected|)
    ensures |Split(m, side, other, k).connected| == |m.connected|
    decreases |side| - k
  {
    if k < |side| {
      SplitSize(Connect(Disconnect(m, side[k], other), side[k], side), side, other, k + 1);
    }
  }

  ghost predicate Disjoint(p1: seq<nat>, p2: seq<nat>) {
    forall x | x in p1 :: x !in p2
  }

  /** Which ends a side changes: the first k of its servers reach each other,
      are cut off from the other side, and nothing else involving only other
      servers has changed. */
  ghost predicate SideDone(m0: Matrix, m: Matrix, side: seq<nat>, other: seq<nat>, k: nat)
    requires k <= |side|
  {
    && Shape(m, |m0.connected|) && InRange(side, |m0.connected|)
    && (forall x | x in side[..k] :: m.connected[x])
    && (forall x | x !in side && 0 <= x < |m0.connected| :: m.connected[x] == m0.connected[x])
    && (forall a, b | a in side[..k] && b in side[..k] :: On(m, a, b))
    && (forall a, b | a in side[..k] && b in other :: !On(m, a, b) && !On(m, b, a))
    && (forall a, b | Untouched(side, other, a, b) :: On(m, a, b) == On(m0, a, b))
  }

  /** Ends between servers outside the side, or from the side to neither side. */
  ghost predicate Untouched(side: seq<nat>, other: seq<nat>, a: int, b: int) {
    || (a !in side && b !in side)
    || (a in side && b !in side && b !in other)
    || (b in side && a !in side && a !in other)
  }

  lemma SideStep(m0: Matrix, m: Matrix, side: seq<nat>, other: seq<nat>, k: nat)
    requires k < |side| && Disjoint(side, other) && InRange(other, |m0.connected|)
    requires SideDone(m0, m, side, other, k)
    ensures SideDone(m0, Connect(Disconnect(m, side[k], other), side[k], side), side, other, k + 1)
  {
    var i, n := side[k], |m0.connected|;
    var cut := Disconnect(m, i, other);
    var m' := Connect(cut, i, side);
    assert side[..k + 1] == side[..k] + [i] && i in side;
    assert forall x | x in side[..k] :: x in side;
    assert forall x | x in side :: 0 <= x < n && x !in other;
    forall a, b | 0 <= a < n && 0 <= b < n ensures On(m', a, b) ==
      (On(cut, a, b) || (a == i && b in side && m'.connected[b]) || (b == i && a in side && m'.connected[a])) {
    }
    forall a, b | 0 <= a < n && 0 <= b < n ensures On(cut, a, b) ==
      (On(m, a, b) && !(a == i && b in other) && !(b == i && a in other)) {
    }
    forall a, b | a in side[..k + 1] && b in side[..k + 1] ensures On(m', a, b) {
    }
    forall a, b | a in side[..k + 1] && b in other ensures !On(m', a, b) && !On(m', b, a) {
      assert 0 <= b < n && b !in side;
    }
    forall a, b | Untouched(side, other, a, b) ensures On(m', a, b) == On(m0, a, b) {
    }
  }

  lemma {:induction false} SideIsDone(m0: Matrix, m: Matrix, side: seq<nat>, other: seq<nat>, k: nat)
    requires k <= |side| && Disjoint(side, other) && InRange(other, |m0.connected|)
    requires SideDone(m0, m, side, other, k)
    ensures SideDone(m0, Split(m, side, other, k), side, other, |side|)
    decreases |side| - k
  {
    if k < |side| {
      SideStep(m0, m, side, other, k);
      SideIsDone(m0, Connect(Disconnect(m, side[k], other), side[k], side), side, other, k + 1);
    }
  }

  /** From any prior state, Partition enables an end between listed servers
      exactly when both are on the same side, and leaves all ends to or from
      unlisted servers alone. */
  lemma PartitionSeparates(m: Matrix, p1: seq<nat>, p2: seq<nat>, a: nat, b: nat)
    requires Shape(m, |m.connected|) && InRange(p1, |m.connected|) && InRange(p2, |m.connected|)
    requires Disjoint(p1, p2)
    ensures var m' := Partition(m, p1, p2);
      && ((a in p1 || a in p2) && (b in p1 || b in p2) ==>
            (On(m', a, b) <==> (a in p1 && b in p1) || (a in p2 && b in p2)))
      && ((a !in p1 && a !in p2) || (b !in p1 && b !in p2) ==> On(m', a, b) == On(m, a, b))
  {
    SideIsDone(m, m, p1, p2, 0);
    var half := Split(m, p1, p2, 0);
    assert Disjoint(p2, p1);
    SideIsDone(half, half, p2, p1, 0);
    assert p1[..|p1|] == p1 && p2[..|p2|] == p2;
    assert Untouched(p2, p1, a, b) || a in p2 || b in p2;
  }

  /** Who counts as connected after a partition. */
  lemma PartitionConnects(m: Matrix, p1: seq<nat>, p2: seq<nat>)
    requires Shape(m, |m.connected|) && InRange(p1, |m.connected|) && InRange(p2, |m.connected|)
    requires Disjoint(p1, p2)
    ensures var m' := Partition(m, p1, p2);
      && Shape(m', |m.connected|)
      && forall x | 0 <= x < |m.connected| :: m'.connected[x] <==> m.connected[x] || x in p1 || x in p2
  {
    SideIsDone(m, m, p1, p2, 0);
    var half := Split(m, p1, p2, 0);
    assert Disjoint(p2, p1);
    SideIsDone(half, half, p2, p1, 0);
    assert p1[..|p1|] == p1 && p2[..|p2|] == p2;
  }

  /** No unlisted server that is connected misses a listed one that was not. */
  ghost predicate NobodyMissed(m: Matrix, p: seq<nat>) {
    forall u, a | 0 <= u < |m.connected| && u !in p && m.connected[u] && a in p && 0 <= a < |m.connected| :: m.connected[a]
  }

  /** From a precise state, a partition leaves `connected` precise if and only
      if one side is empty and no unlisted server is left connected without
      reaching a listed one. */
  lemma PartitionPrecision(m: Matrix, p1: seq<nat>, p2: seq<nat>)
    requires Precise(m) && InRange(p1, |m.connected|) && InRange(p2, |m.connected|) && Disjoint(p1, p2)
    ensures Precise(Partition(m, p1, p2)) <==> (p1 == [] || p2 == []) && NobodyMissed(m, p1 + p2)
  {
    var n, m' := |m.connected|, Partition(m, p1, p2);
    PartitionConnects(m, p1, p2);
    if p1 != [] && p2 != [] {
      assert p1[0] in p1 && p2[0] in p2;
      PartitionSeparates(m, p1, p2, p1[0], p2[0]);
      assert !On(m', p1[0], p2[0]);
    } else {
      forall a, b | 0 <= a < n && 0 <= b < n
        ensures On(m', a, b) <==> (m.connected[a] && m.connected[b]) || (a in p1 + p2 && b in p1 + p2)
      {
        PartitionSeparates(m, p1, p2, a, b);
        assert On(m, a, b) <==> m.connected[a] && m.connected[b];
      }
      OneSided(m, m', p1 + p2);
    }
  }

  lemma OneSided(m: Matrix, m': Matrix, p: seq<nat>)
    requires Precise(m) && Shape(m', |m.connected|)
    requires forall x | 0 <= x < |m.connected| :: m'.connected[x] <==> m.connected[x] || x in p
    requires forall a, b | 0 <= a < |m.connected| && 0 <= b < |m.connected| ::
      On(m', a, b) <==> (m.connected[a] && m.connected[b]) || (a in p && b in p)
    ensures Precise(m') <==> NobodyMissed(m, p)
  {
    if Precise(m') {
      forall u, a | 0 <= u < |m.connected| && u !in p && m.connected[u] && a in p && 0 <= a < |m.connected|
        ensures m.connected[a]
      {
        assert On(m', u, a) <==> m'.connected[u] && m'.connected[a];
      }
    }
  }

  /** Servers before k are connected and reach each other. */
  ghost predicate JoinedUpTo(m: Matrix, k: nat) {
    && k <= |m.connected| && Shape(m, |m.connected|)
    && (forall a | 0 <= a < k :: m.connected[a])
    && (forall a, b | 0 <= a < k && 0 <= b < k :: On(m, a, b))
  }

  lemma {:induction false} RestJoins(m: Matrix, k: nat)
    requires JoinedUpTo(m, k)
    ensures JoinedUpTo(ConnectRest(m, k), |m.connected|) && |ConnectRest(m, k).connected| == |m.connected|
    decreases |m.connected| - k
  {
    if k < |m.connected| {
      RestJoins(Connect(m, k, All(|m.connected|)), k + 1);
    }
  }

  /** ConnectAll makes `connected` precise again from any state, partitions
      included. */
  lemma ConnectAllRestores(m: Matrix)
    requires Shape(m, |m.connected|)
    ensures |Do(m, ConnectAll).connected| == |m.connected| && Precise(Do(m, ConnectAll))
    ensures forall a | 0 <= a < |m.connected| :: Do(m, ConnectAll).connected[a]
  {
    RestJoins(m, 0);
  }

  // ---------- The minority partition ----------

  /** p1 and p2 list the servers 0..n-1 once each, p1 is a strict majority and
      server l is in p2. */
  ghost predicate Isolates(p1: seq<nat>, p2: seq<nat>, n: nat, l: nat) {
    multiset(p1 + p2) == multiset(All(n)) && 2 * |p1| > n && l in p2
  }

  /** After such a partition, any set of servers that l can reach is smaller
      than a majority. */
  lemma NoQuorum(m: Matrix, p1: seq<nat>, p2: seq<nat>, l: nat, q: set<nat>)
    requires Shape(m, |m.connected|) && Isolates(p1, p2, |m.connected|, l)
    ensures InRange(p1, |m.connected|) && InRange(p2, |m.connected|)
    ensures (forall x | x in q :: On(Partition(m, p1, p2), l, x)) ==> 2 * |q| < |m.connected|
  {
    var n := |m.connected|;
    SplitFacts(p1, p2, n);
    if forall x | x in q :: On(Partition(m, p1, p2), l, x) {
      SplitSize(m, p1, p2, 0);
      SplitSize(Split(m, p1, p2, 0), p2, p1, 0);
      SideIsDone(m, m, p1, p2, 0);
      SideIsDone(Split(m, p1, p2, 0), Split(m, p1, p2, 0), p2, p1, 0);
      forall x | x in q ensures x in p2 {
        PartitionSeparates(m, p1, p2, l, x);
      }
      assert |p1 + p2| == |multiset(p1 + p2)| == |multiset(All(n))| == n;
      SetAtMost(q, p2);
    }
  }

  lemma SplitFacts(p1: seq<nat>, p2: seq<nat>, n: nat)
    requires multiset(p1 + p2) == multiset(All(n))
    ensures InRange(p1, n) && InRange(p2, n) && Disjoint(p1, p2)
    ensures forall x | 0 <= x < n :: x in p1 || x in p2
  {
    AllOnce(n);
    assert multiset(p1 + p2) == multiset(p1) + multiset(p2);
    forall x: nat ensures x in p1 || x in p2 <==> x < n {
      assert x in multiset(p1 + p2) <==> x in multiset(All(n));
    }
    forall k | 0 <= k < |p1| ensures p1[k] < n {
      var x := p1[k];
      assert x in p1;
    }
    forall k | 0 <= k < |p2| ensures p2[k] < n {
      var x := p2[k];
      assert x in p2;
    }
    forall x | x in p1 ensures x !in p2 {
      assert multiset(p1)[x] >= 1 && multiset(All(n))[x] <= 1;
    }
  }

  lemma {:induction false} AllOnce(n: nat)
    ensures forall x: nat :: multiset(All(n))[x] == if x < n then 1 else 0
  {
    if n > 0 {
      AllOnce(n - 1);
    }
  }

  lemma {:induction false} SetAtMost(q: set<nat>, s: seq<nat>)
    requires forall x | x in q :: x in s
    ensures |q| <= |s|
  {
    if s == [] {
      assert q == {};
    } else {
      var x := s[0];
      assert s == [x] + s[1..];
      SetAtMost(q - {x}, s[1..]);
      assert |q| <= |q - {x}| + 1;
    }
  }

  /** MakePartition's loop: the servers other than l fill p1 and then p2, and l
      takes the last place of p2. It isolates l exactly when n is odd. */
  method MakePartition(n: nat, l: nat) returns (p1: array<nat>, p2: array<nat>)
    requires n >= 2 && l < n
    ensures fresh(p1) && fresh(p2) && p1.Length == n / 2 + 1 && p2.Length == n / 2
    ensures Isolates(p1[..], p2[..], n, l) <==> n % 2 == 1
  {
    p1 := new nat[n / 2 + 1](_ => 0);
    p2 := new nat[n / 2](_ => 0);
    var j := 0;
    for i := 0 to n
      invariant j == |Except(i, l)|
      invariant Filled(p1[..], p2[..], Except(i, l))
    {
      if i != l {
        ExceptSize(i, l);
        Place(p1, p2, j, i, Except(i, l));
        j := j + 1;
      }
    }
    p2[p2.Length - 1] := l;
    ghost var filled := p2[..p2.Length - 1];
    assert p2[..] == filled + [l];
    ExceptSize(n, l);
    FinishPartition(n, l, p1[..], filled);
  }

  /** p1 and then p2 begin with e, as far as they reach. */
  ghost predicate Filled(p1: seq<nat>, p2: seq<nat>, e: seq<nat>) {
    && (forall k | 0 <= k < |p1| && k < |e| :: p1[k] == e[k])
    && (forall k | 0 <= k < |p2| && k + |p1| < |e| :: p2[k] == e[k + |p1|])
  }

  /** Put x in place j. */
  method Place(p1: array<nat>, p2: array<nat>, j: nat, x: nat, ghost e: seq<nat>)
    requires p1 != p2 && j == |e| < p1.Length + p2.Length && Filled(p1[..], p2[..], e)
    modifies p1, p2
    ensures Filled(p1[..], p2[..], e + [x])
  {
    if j < p1.Length {
      p1[j] := x;
    } else {
      p2[j - p1.Length] := x;
    }
  }

  /** Servers 0..i-1 but for l, in order. */
  function Except(i: nat, l: nat): seq<nat> {
    if i == 0 then []
    else if i - 1 == l then Except(i - 1, l)
    else Except(i - 1, l) + [i - 1]
  }

  lemma {:induction false} ExceptSize(i: nat, l: nat)
    ensures |Except(i, l)| == if i <= l then i else i - 1
  {
    if i > 0 {
      ExceptSize(i - 1, l);
    }
  }

  lemma CountLast(s: seq<nat>, y: nat, x: nat)
    ensures multiset(s + [y])[x] == multiset(s)[x] + if x == y then 1 else 0
  {
  }

  lemma {:induction false} ExceptOnce(i: nat, l: nat, x: nat)
    ensures multiset(Except(i, l))[x] == if x < i && x != l then 1 else 0
  {
    if i > 0 {
      ExceptOnce(i - 1, l, x);
      CountLast(Except(i - 1, l), i - 1, x);
    }
  }

  lemma FilledExactly(p1: seq<nat>, p2: seq<nat>, e: seq<nat>)
    requires Filled(p1, p2, e) && |p1| + |p2| == |e|
    ensures p1 + p2 == e
  {
  }

  lemma ExceptAndOne(n: nat, l: nat)
    requires l < n
    ensures multiset(Except(n, l) + [l]) == multiset(All(n))
  {
    AddLast(Except(n, l), l);
    AllOnce(n);
    forall x: nat ensures multiset(Except(n, l) + [l])[x] == multiset(All(n))[x] {
      ExceptOnce(n, l, x);
    }
  }

  lemma FinishPartition(n: nat, l: nat, p1: seq<nat>, filled: seq<nat>)
    requires n >= 2 && l < n && |p1| == n / 2 + 1 && |filled| == n / 2 - 1
    requires |Except(n, l)| == n - 1 && Filled(p1, filled, Except(n, l))
    ensures Isolates(p1, filled + [l], n, l) <==> n % 2 == 1
  {
    var p2 := filled + [l];
    assert p2[|filled|] == l;
    if n % 2 == 1 {
      FilledExactly(p1, filled, Except(n, l));
      ExceptAndOne(n, l);
      assert p1 + p2 == Except(n, l) + [l];
    } else {
      DifferentSizes(p1 + p2, All(n));
    }
  }

  lemma AddLast(s: seq<nat>, x: nat)
    ensures multiset(s + [x]) == multiset(s) + multiset{x}
  {
  }

  lemma DifferentSizes(s: seq<nat>, t: seq<nat>)
    requires |s| != |t|
    ensures multiset(s) != multiset(t)
  {
    assert |multiset(s)| == |s| && |multiset(t)| == |t|;
  }
}
