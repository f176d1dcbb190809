/** Which shards the greedy rebalance moves, and where to: laws of its result
    stated on shards, gids and loads alone. */
module ShardLaws {
  import opened Collections
  import opened ShardBalance

  /** The shards whose owner differs. */
  function Moved(a: seq<Tgid>, b: seq<Tgid>): set<int>
    requires |a| == |b|
  {
    set i | 0 <= i < |a| && a[i] != b[i]
  }

  lemma {:induction false} DistanceMeans(a: seq<Tgid>, b: seq<Tgid>)
    requires |a| == |b|
    ensures Distance(a, b) == |set i | 0 <= i < |a| && a[i] != b[i]|
  {
    if a != [] {
      var n := |a| - 1;
      DistanceMeans(a[..n], b[..n]);
      DistanceLast(a, b);
      assert Moved(a, b) == Moved(a[..n], b[..n]) + if a[n] != b[n] then {n} else {};
    }
  }

  lemma {:induction false} DistanceLast(a: seq<Tgid>, b: seq<Tgid>)
    requires |a| == |b| && a != []
    ensures Distance(a, b) == Distance(a[..|a| - 1], b[..|b| - 1]) + if a[|a| - 1] != b[|b| - 1] then 1 else 0
  {
    var n := |a| - 1;
    if n > 0 {
      DistanceLast(a[1..], b[1..]);
      assert a[1..][..n - 1] == a[..n][1..] && b[1..][..n - 1] == b[..n][1..];
    }
  }

  // ---------- Where unowned shards go ----------

  /** g has the fewest shards of all groups, and the smallest gid of those with as few. */
  ghost predicate Emptiest(s: seq<Tgid>, G: set<Tgid>, g: Tgid) {
    g in G && forall h | h in G :: multiset(s)[g] < multiset(s)[h] || (multiset(s)[g] == multiset(s)[h] && g <= h)
  }

  /** An owned shard stays. An unowned one goes to the emptiest group as it is
      when the shards before it are placed as in r and the rest are as in s0. */
  ghost predicate PlacedAt(s0: seq<Tgid>, r: seq<Tgid>, G: set<Tgid>, k: nat)
    requires k < |s0| == |r|
  {
    if s0[k] in G then r[k] == s0[k] else Emptiest(r[..k] + s0[k..], G, r[k])
  }

  ghost predicate Placed(s0: seq<Tgid>, r: seq<Tgid>, G: set<Tgid>) {
    |r| == |s0| && forall k | 0 <= k < |s0| :: PlacedAt(s0, r, G, k)
  }

  lemma PlacedNext(s0: seq<Tgid>, s: seq<Tgid>, r: seq<Tgid>, G: set<Tgid>, i: nat)
    requires G != {} && |s0| == |s| == |r| && i < |s|
    requires s[i..] == s0[i..] && r[..i] == s[..i]
    requires r[i] == if s[i] in G then s[i] else Least(s, G)
    ensures PlacedAt(s0, r, G, i)
  {
    assert s[i] == s[i..][0] == s0[i..][0] == s0[i];
    assert r[..i] + s0[i..] == s[..i] + s[i..] == s;
  }

  /** The assignment before shard i + 1 is considered. */
  ghost function AfterOne(s: seq<Tgid>, G: set<Tgid>, i: nat): seq<Tgid>
    requires G != {} && i < |s|
  {
    if s[i] in G then s else s[i := Least(s, G)]
  }

  lemma AssignAllStep(s0: seq<Tgid>, s: seq<Tgid>, G: set<Tgid>, i: nat)
    requires G != {} && Progress(s0, s, G) && NoLosers(s0, s, G)
    requires i < |s| && s[i..] == s0[i..]
    requires forall k | 0 <= k < i :: s[k] in G
    ensures var s' := AfterOne(s, G, i);
      && Progress(s0, s', G) && NoLosers(s0, s', G) && s'[i + 1..] == s0[i + 1..]
      && (forall k | 0 <= k < i + 1 :: s'[k] in G)
      && AssignAll(s0, s, G, i) == AssignAll(s0, s', G, i + 1)
  {
    assert s[i] == s[i..][0] == s0[i..][0] == s0[i];
    assert s[i + 1..] == s[i..][1..] == s0[i..][1..] == s0[i + 1..];
    if s[i] !in G {
      AssignKeepsProgress(s0, s, G, i);
    }
  }

  lemma {:induction false} AssignAllPlaces(s0: seq<Tgid>, s: seq<Tgid>, G: set<Tgid>, i: nat)
    requires G != {} && Progress(s0, s, G) && NoLosers(s0, s, G)
    requires i <= |s| && s[i..] == s0[i..]
    requires forall k | 0 <= k < i :: s[k] in G
    ensures var r := AssignAll(s0, s, G, i);
      |r| == |s| && r[..i] == s[..i] && forall k | i <= k < |s0| :: PlacedAt(s0, r, G, k)
    decreases |s| - i
  {
    if i < |s| {
      var s', r := AfterOne(s, G, i), AssignAll(s0, s, G, i);
      AssignAllStep(s0, s, G, i);
      AssignAllPlaces(s0, s', G, i + 1);
      TakeLess(r, s', i);
      assert s'[..i] == s[..i];
      PlacedNext(s0, s, r, G, i);
    }
  }

  lemma TakeLess(r: seq<Tgid>, s: seq<Tgid>, i: nat)
    requires i < |r| && i < |s| && r[..i + 1] == s[..i + 1]
    ensures r[..i] == s[..i] && r[i] == s[i]
  {
    assert r[..i] == r[..i + 1][..i] && s[..i] == s[..i + 1][..i];
    assert r[i] == r[..i + 1][i] && s[i] == s[..i + 1][i];
  }

  /** Once unowned shards are placed, the owned ones are where they were and
      each of the others went, in order, to the group that was least loaded then. */
  lemma OrphansGoToLeast(s0: seq<Tgid>, G: set<Tgid>)
    requires G != {}
    ensures Progress(s0, s0, G) && NoLosers(s0, s0, G)
    ensures Placed(s0, AssignAll(s0, s0, G, 0), G)
  {
    StartsInProgress(s0, G);
    AssignAllPlaces(s0, s0, G, 0);
  }

  // ---------- The rebalance as a sequence of greedy moves ----------

  /** g has the most shards of all groups, and the smallest gid of those with as many. */
  ghost predicate Fullest(s: seq<Tgid>, G: set<Tgid>, g: Tgid) {
    g in G && forall h | h in G :: multiset(s)[g] > multiset(s)[h] || (multiset(s)[g] == multiset(s)[h] && g <= h)
  }

  /** The fullest group's first shard goes to the emptiest group, which has at
      least two fewer. */
  ghost predicate MoveStep(s: seq<Tgid>, s': seq<Tgid>, G: set<Tgid>) {
    exists i, g | 0 <= i < |s| && Emptiest(s, G, g) ::
      && Fullest(s, G, s[i]) && (forall k | 0 <= k < i :: s[k] != s[i])
      && multiset(s)[s[i]] >= multiset(s)[g] + 2 && s' == s[i := g]
  }

  ghost predicate Even(s: seq<Tgid>, G: set<Tgid>) {
    forall g, h | g in G && h in G :: multiset(s)[g] <= multiset(s)[h] + 1
  }

  /** From s to r in moves, until the loads are even. */
  ghost predicate Moves(s: seq<Tgid>, steps: seq<seq<Tgid>>, r: seq<Tgid>, G: set<Tgid>)
    decreases |steps|
  {
    if steps == [] then r == s && Even(s, G)
    else MoveStep(s, steps[0], G) && Moves(steps[0], steps[1..], r, G)
  }

  /** Unowned shards are placed, and then shards move. */
  ghost predicate IsGreedy(s0: seq<Tgid>, r: seq<Tgid>, G: set<Tgid>) {
    exists start, steps | Placed(s0, start, G) :: Moves(start, steps, r, G)
  }

  lemma {:induction false} MoveAllMoves(s0: seq<Tgid>, s: seq<Tgid>, G: set<Tgid>) returns (steps: seq<seq<Tgid>>)
    requires G != {} && Progress(s0, s, G) && AssignedTo(s, G)
    ensures Moves(s, steps, MoveAll(s0, s, G), G)
    decreases |s0| - Distance(s0, s)
  {
    if Uneven(s, G) {
      var mg, lg := Most(s, G), Least(s, G);
      assert mg in s by {
        assert multiset(s)[mg] > 0;
      }
      var i := FirstOwned(s, mg);
      MoveKeepsProgress(s0, s, G, i, mg, lg);
      var rest := MoveAllMoves(s0, s[i := lg], G);
      OneMove(s, G, i, mg, lg);
      steps := [s[i := lg]] + rest;
      assert steps[1..] == rest;
    } else {
      steps := [];
    }
  }

  lemma OneMove(s: seq<Tgid>, G: set<Tgid>, i: nat, mg: Tgid, lg: Tgid)
    requires IsMost(s, G, mg) && IsLeast(s, G, lg) && Count(s, mg) >= Count(s, lg) + 2
    requires i < |s| && s[i] == mg && forall k | 0 <= k < i :: s[k] != mg
    ensures MoveStep(s, s[i := lg], G)
  {
    assert Emptiest(s, G, lg) && Fullest(s, G, s[i]);
  }

  lemma MoveIsUnique(s: seq<Tgid>, a: seq<Tgid>, b: seq<Tgid>, G: set<Tgid>)
    requires MoveStep(s, a, G) && MoveStep(s, b, G)
    ensures a == b
  {
    var i, g :| 0 <= i < |s| && Emptiest(s, G, g) && Fullest(s, G, s[i]) && (forall k | 0 <= k < i :: s[k] != s[i]) && a == s[i := g];
    var j, h :| 0 <= j < |s| && Emptiest(s, G, h) && Fullest(s, G, s[j]) && (forall k | 0 <= k < j :: s[k] != s[j]) && b == s[j := h];
    assert g == h && s[i] == s[j];
    assert i == j;
  }

  lemma NoMoveWhenEven(s: seq<Tgid>, s': seq<Tgid>, G: set<Tgid>)
    requires Even(s, G)
    ensures !MoveStep(s, s', G)
  {
    forall i, g | 0 <= i < |s| && Emptiest(s, G, g) && Fullest(s, G, s[i])
      ensures multiset(s)[s[i]] <= multiset(s)[g] + 1
    {
    }
  }

  lemma {:induction false} MovesAreUnique(s: seq<Tgid>, a: seq<seq<Tgid>>, q: seq<Tgid>, b: seq<seq<Tgid>>, r: seq<Tgid>, G: set<Tgid>)
    requires Moves(s, a, q, G) && Moves(s, b, r, G)
    ensures q == r
    decreases |a|
  {
    if a == [] {
      if b != [] {
        NoMoveWhenEven(s, b[0], G);
      }
    } else if b == [] {
      NoMoveWhenEven(s, a[0], G);
    } else {
      MoveIsUnique(s, a[0], b[0], G);
      MovesAreUnique(a[0], a[1..], q, b[1..], r, G);
    }
  }

  lemma PlaceIsUnique(s0: seq<Tgid>, a: seq<Tgid>, b: seq<Tgid>, G: set<Tgid>, k: nat)
    requires k < |s0| == |a| == |b| && a[..k] == b[..k]
    requires PlacedAt(s0, a, G, k) && PlacedAt(s0, b, G, k)
    ensures a[k] == b[k]
  {
  }

  lemma {:induction false} PlacedIsUnique(s0: seq<Tgid>, a: seq<Tgid>, b: seq<Tgid>, G: set<Tgid>, k: nat)
    requires Placed(s0, a, G) && Placed(s0, b, G) && k <= |s0|
    ensures a[..k] == b[..k]
  {
    if k > 0 {
      PlacedIsUnique(s0, a, b, G, k - 1);
      PlaceIsUnique(s0, a, b, G, k - 1);
      assert a[..k] == a[..k - 1] + [a[k - 1]] && b[..k] == b[..k - 1] + [b[k - 1]];
    }
  }

  /** The rebalance is exactly this greedy process, which has one outcome. */
  lemma RebalanceIsGreedy(s0: seq<Tgid>, r: seq<Tgid>, G: set<Tgid>)
    requires G != {}
    ensures r == Rebalanced(s0, G) <==> IsGreedy(s0, r, G)
  {
    OrphansGoToLeast(s0, G);
    var start := AssignAll(s0, s0, G, 0);
    var steps := MoveAllMoves(s0, start, G);
    if q, more :| Placed(s0, q, G) && Moves(q, more, r, G) {
      PlacedIsUnique(s0, start, q, G, |s0|);
      assert start == start[..|s0|] == q[..|s0|] == q;
      MovesAreUnique(start, steps, Rebalanced(s0, G), more, r, G);
    }
  }

  // ---------- The closed form for a first join ----------

  ghost predicate Ascending(gs: seq<Tgid>) {
    forall i, j | 0 <= i < j < |gs| :: gs[i] < gs[j]
  }

  /** gs lists G in increasing order. */
  ghost predicate Lists(gs: seq<Tgid>, G: set<Tgid>) {
    Ascending(gs) && forall g :: g in gs <==> g in G
  }

  /** The first i shards dealt out in turn. */
  function Deal(gs: seq<Tgid>, i: nat): (s: seq<Tgid>)
    requires gs != []
    ensures |s| == i && forall k | 0 <= k < i :: s[k] == gs[k % |gs|]
  {
    if i == 0 then [] else Deal(gs, i - 1) + [gs[(i - 1) % |gs|]]
  }

  /** How many of the first i turns are the j'th of n. */
  function Share(i: nat, n: nat, j: nat): nat
    requires j < n
  {
    if i == 0 then 0 else Share(i - 1, n, j) + if (i - 1) % n == j then 1 else 0
  }

  lemma NextTurn(i: nat, n: nat)
    requires n > 0
    ensures i % n + 1 < n ==> (i + 1) / n == i / n && (i + 1) % n == i % n + 1
    ensures i % n + 1 == n ==> (i + 1) / n == i / n + 1 && (i + 1) % n == 0
  {
    var q, m := i / n, i % n;
    if m + 1 < n {
      Divided(i + 1, n, q, m + 1);
    } else {
      assert (q + 1) * n == q * n + n;
      Divided(i + 1, n, q + 1, 0);
    }
  }

  lemma {:induction false} ShareIs(i: nat, n: nat, j: nat)
    requires j < n
    ensures Share(i, n, j) == i / n + if j < i % n then 1 else 0
  {
    if i == 0 {
      Divided(0, n, 0, 0);
    } else {
      ShareIs(i - 1, n, j);
      NextTurn(i - 1, n);
    }
  }

  lemma Divided(i: nat, n: nat, q: nat, m: nat)
    requires n > 0 && i == q * n + m && m < n
    ensures i / n == q && i % n == m
  {
    var d := i / n;
    assert i == d * n + i % n;
    assert q * n < (d + 1) * n && d * n < (q + 1) * n;
    Cancel(q, d + 1, n);
    Cancel(d, q + 1, n);
  }

  lemma DealOne(gs: seq<Tgid>, i: nat, j: nat)
    requires Ascending(gs) && j < |gs|
    ensures multiset(Deal(gs, i + 1))[gs[j]] == multiset(Deal(gs, i))[gs[j]] + if j == i % |gs| then 1 else 0
  {
    var m := i % |gs|;
    assert gs[m] == gs[j] <==> m == j;
    assert Deal(gs, i + 1) == Deal(gs, i) + [gs[m]];
  }

  lemma {:induction false} DealCounts(gs: seq<Tgid>, i: nat, j: nat)
    requires Ascending(gs) && j < |gs|
    ensures multiset(Deal(gs, i))[gs[j]] == Share(i, |gs|, j)
  {
    if i > 0 {
      DealCounts(gs, i - 1, j);
      DealOne(gs, i - 1, j);
    }
  }

  /** With i shards dealt, the next one is due to group i mod n. */
  lemma DealNext(gs: seq<Tgid>, G: set<Tgid>, s: seq<Tgid>, i: nat)
    requires gs != [] && Lists(gs, G) && i < |s| && s[..i] == Deal(gs, i)
    requires forall k | i <= k < |s| :: s[k] !in G
    ensures G != {} && Least(s, G) == gs[i % |gs|]
  {
    var n, next := |gs|, gs[i % |gs|];
    assert next in gs;
    forall j | 0 <= j < n ensures Count(s, gs[j]) == i / n + if j < i % n then 1 else 0 {
      assert gs[j] in gs;
      CountPrefix(s, i, gs[j]);
      DealCounts(gs, i, j);
      ShareIs(i, n, j);
    }
    var l := Least(s, G);
    assert l in gs;
    var j :| 0 <= j < n && gs[j] == l;
    assert Count(s, next) == i / n;
    assert j >= i % n;
    assert j > i % n ==> next < l;
  }

  lemma CountPrefix(s: seq<Tgid>, i: nat, g: Tgid)
    requires i <= |s| && forall k | i <= k < |s| :: s[k] != g
    ensures Count(s, g) == multiset(s[..i])[g]
  {
    assert s == s[..i] + s[i..];
    assert g !in s[i..];
  }

  lemma DealGrows(gs: seq<Tgid>, s: seq<Tgid>, i: nat)
    requires gs != [] && i < |s| && s[..i] == Deal(gs, i)
    ensures s[i := gs[i % |gs|]][..i + 1] == Deal(gs, i + 1)
  {
    assert s[i := gs[i % |gs|]][..i + 1] == s[..i] + [gs[i % |gs|]];
  }

  lemma {:induction false} AssignAllDeals(s0: seq<Tgid>, s: seq<Tgid>, G: set<Tgid>, gs: seq<Tgid>, i: nat)
    requires gs != [] && Lists(gs, G) && G != {} && Progress(s0, s, G) && NoLosers(s0, s, G)
    requires i <= |s| && s[..i] == Deal(gs, i) && s[i..] == s0[i..]
    requires forall k | 0 <= k < i :: s[k] in G
    requires forall k | 0 <= k < |s0| :: s0[k] !in G
    ensures AssignAll(s0, s, G, i) == Deal(gs, |s0|)
    decreases |s| - i
  {
    if i == |s| {
      assert s[..i] == s;
    } else {
      RestUnowned(s0, s, G, i);
      DealNext(gs, G, s, i);
      DealGrows(gs, s, i);
      AssignAllStep(s0, s, G, i);
      AssignAllDeals(s0, s[i := gs[i % |gs|]], G, gs, i + 1);
    }
  }

  lemma RestUnowned(s0: seq<Tgid>, s: seq<Tgid>, G: set<Tgid>, i: nat)
    requires |s| == |s0| && i <= |s| && s[i..] == s0[i..] && forall k | 0 <= k < |s0| :: s0[k] !in G
    ensures forall k | i <= k < |s| :: s[k] !in G
  {
    forall k | i <= k < |s| ensures s[k] !in G {
      assert s[k] == s[i..][k - i] == s0[i..][k - i] == s0[k];
    }
  }

  lemma DealIsEven(gs: seq<Tgid>, G: set<Tgid>, i: nat)
    requires gs != [] && Lists(gs, G) && G != {}
    ensures !Uneven(Deal(gs, i), G)
  {
    var mg, lg := Most(Deal(gs, i), G), Least(Deal(gs, i), G);
    assert mg in gs && lg in gs;
    var a :| 0 <= a < |gs| && gs[a] == mg;
    var b :| 0 <= b < |gs| && gs[b] == lg;
    DealCounts(gs, i, a);
    DealCounts(gs, i, b);
    ShareIs(i, |gs|, a);
    ShareIs(i, |gs|, b);
  }

  /** From shards that no group owns, as in a first join, the shards are dealt
      out in turn to the groups in the order of their gids. */
  lemma FirstJoinDeals(s0: seq<Tgid>, G: set<Tgid>, gs: seq<Tgid>, k: nat)
    requires gs != [] && Lists(gs, G) && (forall i | 0 <= i < |s0| :: s0[i] !in G) && k < |s0|
    ensures |Rebalanced(s0, G)| == |s0| && Rebalanced(s0, G)[k] == gs[k % |gs|]
  {
    assert gs[0] in gs;
    assert gs[0] in G;
    StartsInProgress(s0, G);
    AssignAllDeals(s0, s0, G, gs, 0);
    DealIsEven(gs, G, |s0|);
  }

  // ---------- Which shards move, and ties ----------

  /** Of the shards a group had, it gives the lowest-numbered ones. */
  ghost predicate LowestFirst(s0: seq<Tgid>, s: seq<Tgid>, G: set<Tgid>) {
    |s| == |s0| && forall i, j | 0 <= i < j < |s0| && s0[i] == s0[j] && s0[i] in G && s[j] != s0[j] :: s[i] != s0[i]
  }

  /** A group that gained has no more than those with smaller gids; one that
      gave away has no fewer. */
  ghost predicate TiesByGid(s0: seq<Tgid>, s: seq<Tgid>, G: set<Tgid>) {
    && |s| == |s0|
    && (forall g, h | g in G && h in G && g < h && Gainer(s0, s, h) :: Count(s, g) >= Count(s, h))
    && (forall g, h | g in G && h in G && g < h && Loser(s0, s, h) :: Count(s, g) <= Count(s, h))
  }

  lemma AssignKeepsTies(s0: seq<Tgid>, s: seq<Tgid>, G: set<Tgid>, i: nat)
    requires G != {} && Progress(s0, s, G) && NoLosers(s0, s, G) && TiesByGid(s0, s, G)
    requires i < |s| && s[i] == s0[i] && s[i] !in G
    ensures TiesByGid(s0, s[i := Least(s, G)], G)
  {
    RolesAfterUpdate(s0, s, i, Least(s, G));
    CountUpdate(s, i, Least(s, G));
  }

  lemma MoveKeepsTies(s0: seq<Tgid>, s: seq<Tgid>, G: set<Tgid>, i: nat, mg: Tgid, lg: Tgid)
    requires Progress(s0, s, G) && AssignedTo(s, G) && TiesByGid(s0, s, G)
    requires IsMost(s, G, mg) && IsLeast(s, G, lg) && Count(s, mg) >= Count(s, lg) + 2
    requires i < |s| && s[i] == mg
    ensures TiesByGid(s0, s[i := lg], G)
  {
    MoveKeepsProgress(s0, s, G, i, mg, lg);
    RolesAfterUpdate(s0, s, i, lg);
    CountUpdate(s, i, lg);
    TiesAfterMove(s0, s, s[i := lg], G, mg, lg);
  }

  lemma TiesAfterMove(s0: seq<Tgid>, s: seq<Tgid>, s': seq<Tgid>, G: set<Tgid>, mg: Tgid, lg: Tgid)
    requires Progress(s0, s, G) && TiesByGid(s0, s, G) && |s'| == |s|
    requires IsMost(s, G, mg) && IsLeast(s, G, lg) && Count(s, mg) >= Count(s, lg) + 2
    requires forall g :: Gainer(s0, s', g) <==> g == lg || Gainer(s0, s, g)
    requires forall g :: Loser(s0, s', g) <==> g == mg || Loser(s0, s, g)
    requires Count(s', lg) == Count(s, lg) + 1 && Count(s', mg) + 1 == Count(s, mg)
    requires forall g | g != lg && g != mg :: Count(s', g) == Count(s, g)
    ensures TiesByGid(s0, s', G)
  {
    forall g, h | g in G && h in G && g < h && Gainer(s0, s', h) ensures Count(s', g) >= Count(s', h) {
      if h != lg && g == mg {
        assert Count(s, h) <= Count(s, lg) + 1;
      }
    }
    forall g, h | g in G && h in G && g < h && Loser(s0, s', h) ensures Count(s', g) <= Count(s', h) {
      if h != mg && g == lg {
        assert Count(s, mg) <= Count(s, h) + 1;
      }
    }
  }

  lemma MoveKeepsLowest(s0: seq<Tgid>, s: seq<Tgid>, G: set<Tgid>, mg: Tgid, lg: Tgid)
    requires LowestFirst(s0, s, G) && mg in s && mg != lg
    requires s[FirstOwned(s, mg)] == s0[FirstOwned(s, mg)]
    ensures LowestFirst(s0, s[FirstOwned(s, mg) := lg], G)
  {
  }

  lemma {:induction false} AssignAllLaws(s0: seq<Tgid>, s: seq<Tgid>, G: set<Tgid>, i: nat)
    requires G != {} && Progress(s0, s, G) && NoLosers(s0, s, G)
    requires i <= |s| && s[i..] == s0[i..]
    requires forall k | 0 <= k < i :: s[k] in G
    requires TiesByGid(s0, s, G) && LowestFirst(s0, s, G)
    ensures TiesByGid(s0, AssignAll(s0, s, G, i), G) && LowestFirst(s0, AssignAll(s0, s, G, i), G)
    decreases |s| - i
  {
    if i < |s| {
      assert s[i] == s[i..][0] == s0[i..][0] == s0[i];
      AssignAllStep(s0, s, G, i);
      if s[i] !in G {
        AssignKeepsTies(s0, s, G, i);
      }
      AssignAllLaws(s0, AfterOne(s, G, i), G, i + 1);
    }
  }

  lemma {:induction false} MoveAllLaws(s0: seq<Tgid>, s: seq<Tgid>, G: set<Tgid>)
    requires G != {} && Progress(s0, s, G) && AssignedTo(s, G)
    requires TiesByGid(s0, s, G) && LowestFirst(s0, s, G)
    ensures TiesByGid(s0, MoveAll(s0, s, G), G) && LowestFirst(s0, MoveAll(s0, s, G), G)
    decreases |s0| - Distance(s0, s)
  {
    if Uneven(s, G) {
      var mg, lg := Most(s, G), Least(s, G);
      assert mg in s by {
        assert multiset(s)[mg] > 0;
      }
      var i := FirstOwned(s, mg);
      MoveKeepsProgress(s0, s, G, i, mg, lg);
      MoveKeepsTies(s0, s, G, i, mg, lg);
      MoveKeepsLowest(s0, s, G, mg, lg);
      MoveAllLaws(s0, s[i := lg], G);
    }
  }

  /** After a rebalance with at least one group, each group has given its
      lowest-numbered shards, groups that gained have no more than those with
      smaller gids, and groups that gave away no fewer. */
  lemma RebalanceLaws(s0: seq<Tgid>, G: set<Tgid>)
    requires G != {}
    ensures LowestFirst(s0, Rebalanced(s0, G), G) && TiesByGid(s0, Rebalanced(s0, G), G)
  {
    StartsInProgress(s0, G);
    AssignAllLaws(s0, s0, G, 0);
    MoveAllLaws(s0, AssignAll(s0, s0, G, 0), G);
  }

  /** Without groups, every shard is unassigned. */
  lemma NoGroupsNoOwners(s0: seq<Tgid>, k: nat)
    requires k < |s0|
    ensures Rebalanced(s0, {})[k] == 0
  {
  }
}
