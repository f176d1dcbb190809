/** What a rebalance of shards over groups must achieve, and the reference
    definition of the greedy rebalance that `ShardConfig.Rebalance` runs.

    An assignment is a sequence `s`: shard `i` belongs to group `s[i]`. */
module ShardBalance {
  import opened Collections

  type Tgid = int

  /** How many shards group g owns. */
  function Count(s: seq<Tgid>, g: Tgid): nat {
    multiset(s)[g]
  }

  ghost predicate AssignedTo(s: seq<Tgid>, G: set<Tgid>) {
    forall i | 0 <= i < |s| :: s[i] in G
  }

  ghost predicate Balanced(s: seq<Tgid>, G: set<Tgid>) {
    forall g, h | g in G && h in G :: Count(s, g) <= Count(s, h) + 1
  }

  /** In how many positions two assignments differ. */
  function Distance(a: seq<Tgid>, b: seq<Tgid>): (d: nat)
    requires |a| == |b|
    ensures d <= |a|
  {
    if |a| == 0 then 0
    else Distance(a[1..], b[1..]) + if a[0] != b[0] then 1 else 0
  }

  // ---------- The two choices `analyze` makes ----------

  /** g owns the fewest shards; among equals it has the smallest gid. */
  ghost predicate IsLeast(s: seq<Tgid>, G: set<Tgid>, g: Tgid) {
    g in G && forall h | h in G ::
      Count(s, g) < Count(s, h) || (Count(s, g) == Count(s, h) && g <= h)
  }

  /** g owns the most shards; among equals it has the smallest gid. */
  ghost predicate IsMost(s: seq<Tgid>, G: set<Tgid>, g: Tgid) {
    g in G && forall h | h in G ::
      Count(s, g) > Count(s, h) || (Count(s, g) == Count(s, h) && g <= h)
  }

  lemma {:induction false} LeastExists(s: seq<Tgid>, G: set<Tgid>)
    requires G != {}
    ensures exists g :: IsLeast(s, G, g)
  {
    var x := Pick(G);
    if G == {x} {
      assert IsLeast(s, G, x);
    } else {
      LeastExists(s, G - {x});
      var y :| IsLeast(s, G - {x}, y);
      var xWins := Count(s, x) < Count(s, y) || (Count(s, x) == Count(s, y) && x <= y);
      assert IsLeast(s, G, if xWins then x else y);
    }
  }

  lemma {:induction false} MostExists(s: seq<Tgid>, G: set<Tgid>)
    requires G != {}
    ensures exists g :: IsMost(s, G, g)
  {
    var x := Pick(G);
    if G == {x} {
      assert IsMost(s, G, x);
    } else {
      MostExists(s, G - {x});
      var y :| IsMost(s, G - {x}, y);
      var xWins := Count(s, x) > Count(s, y) || (Count(s, x) == Count(s, y) && x <= y);
      assert IsMost(s, G, if xWins then x else y);
    }
  }

  ghost function Least(s: seq<Tgid>, G: set<Tgid>): (g: Tgid)
    requires G != {}
    ensures IsLeast(s, G, g)
  {
    LeastExists(s, G);
    var g :| IsLeast(s, G, g);
    g
  }

  ghost function Most(s: seq<Tgid>, G: set<Tgid>): (g: Tgid)
    requires G != {}
    ensures IsMost(s, G, g)
  {
    MostExists(s, G);
    var g :| IsMost(s, G, g);
    g
  }

  // ---------- The invariant of a rebalance under way ----------

  ghost predicate Gainer(s0: seq<Tgid>, s: seq<Tgid>, g: Tgid)
    requires |s| == |s0|
  {
    exists i | 0 <= i < |s| :: s[i] == g && s0[i] != g
  }

  ghost predicate Loser(s0: seq<Tgid>, s: seq<Tgid>, g: Tgid)
    requires |s| == |s0|
  {
    exists i | 0 <= i < |s| :: s0[i] == g && s[i] != g
  }

  /** What holds between the starting assignment s0 and any intermediate
      assignment s. Gainers stay near the minimum, losers that are still members
      stay near the maximum, no loser is below a gainer and none is both. */
  ghost predicate Progress(s0: seq<Tgid>, s: seq<Tgid>, G: set<Tgid>) {
    && |s| == |s0|
    && (forall g | Gainer(s0, s, g) :: g in G)
    && (forall g, h | Gainer(s0, s, g) && h in G :: Count(s, g) <= Count(s, h) + 1)
    && (forall g, h | Loser(s0, s, g) && g in G && h in G :: Count(s, h) <= Count(s, g) + 1)
    && (forall g, h | Gainer(s0, s, g) && Loser(s0, s, h) && h in G :: g != h && Count(s, g) <= Count(s, h))
  }

  /** No shard has been taken from a group that is still a member. */
  ghost predicate NoLosers(s0: seq<Tgid>, s: seq<Tgid>, G: set<Tgid>)
    requires |s| == |s0|
  {
    forall g | Loser(s0, s, g) :: g !in G
  }

  lemma CountUpdate(s: seq<Tgid>, i: nat, h: Tgid)
    requires i < |s| && s[i] != h
    ensures Count(s[i := h], h) == Count(s, h) + 1
    ensures Count(s[i := h], s[i]) + 1 == Count(s, s[i])
    ensures forall g | g != h && g != s[i] :: Count(s[i := h], g) == Count(s, g)
  {
    assert multiset(s[i := h]) == multiset(s) - multiset{s[i]} + multiset{h};
    assert s[i] in multiset(s);
  }

  lemma {:induction false} DistanceUpdate(a: seq<Tgid>, b: seq<Tgid>, i: nat, h: Tgid)
    requires |a| == |b| && i < |a| && a[i] == b[i] && h != a[i]
    ensures Distance(a, b[i := h]) == Distance(a, b) + 1
  {
    if i == 0 {
      assert b[i := h][1..] == b[1..];
    } else {
      assert b[i := h][1..] == b[1..][i - 1 := h];
      DistanceUpdate(a[1..], b[1..], i - 1, h);
    }
  }

  lemma {:induction false} DistanceToSelf(a: seq<Tgid>)
    ensures Distance(a, a) == 0
  {
    if |a| > 0 {
      DistanceToSelf(a[1..]);
    }
  }

  /** Reassigning a shard that has not moved makes h a gainer and its former
      owner a loser, and changes no other group's role. */
  lemma RolesAfterUpdate(s0: seq<Tgid>, s: seq<Tgid>, i: nat, h: Tgid)
    requires |s| == |s0| && i < |s| && s[i] == s0[i] && h != s[i]
    ensures forall g :: Gainer(s0, s[i := h], g) <==> g == h || Gainer(s0, s, g)
    ensures forall g :: Loser(s0, s[i := h], g) <==> g == s[i] || Loser(s0, s, g)
  {
    var s' := s[i := h];
    forall g ensures Gainer(s0, s', g) <==> g == h || Gainer(s0, s, g) {
      assert s'[i] == h && s0[i] != h;
      if Gainer(s0, s, g) {
        var k :| 0 <= k < |s| && s[k] == g && s0[k] != g;
        assert s'[k] == g;
      }
      if Gainer(s0, s', g) && g != h {
        var k :| 0 <= k < |s'| && s'[k] == g && s0[k] != g;
        assert s[k] == g;
      }
    }
    forall g ensures Loser(s0, s', g) <==> g == s[i] || Loser(s0, s, g) {
      assert s0[i] == s[i] && s'[i] != s[i];
      if Loser(s0, s, g) {
        var k :| 0 <= k < |s| && s0[k] == g && s[k] != g;
        assert s'[k] == s[k];
      }
      if Loser(s0, s', g) && g != s[i] {
        var k :| 0 <= k < |s'| && s0[k] == g && s'[k] != g;
        assert s[k] == s'[k];
      }
    }
  }

  /** One unassigned shard goes to the least loaded group. */
  lemma AssignKeepsProgress(s0: seq<Tgid>, s: seq<Tgid>, G: set<Tgid>, i: nat)
    requires G != {} && Progress(s0, s, G) && NoLosers(s0, s, G)
    requires i < |s| && s[i] == s0[i] && s[i] !in G
    ensures var s' := s[i := Least(s, G)];
      Progress(s0, s', G) && NoLosers(s0, s', G) && Distance(s0, s') == Distance(s0, s) + 1
  {
    RolesAfterUpdate(s0, s, i, Least(s, G));
    CountUpdate(s, i, Least(s, G));
    DistanceUpdate(s0, s, i, Least(s, G));
  }

  /** The most loaded group gives one shard to the least loaded one. The shard
      it gives has never moved before. */
  lemma MoveKeepsProgress(s0: seq<Tgid>, s: seq<Tgid>, G: set<Tgid>, i: nat, mg: Tgid, lg: Tgid)
    requires Progress(s0, s, G) && AssignedTo(s, G)
    requires IsMost(s, G, mg) && IsLeast(s, G, lg) && Count(s, mg) >= Count(s, lg) + 2
    requires i < |s| && s[i] == mg
    ensures s[i] == s0[i]
    ensures Progress(s0, s[i := lg], G) && AssignedTo(s[i := lg], G)
    ensures Distance(s0, s[i := lg]) == Distance(s0, s) + 1
  {
    assert !Gainer(s0, s, mg);
    RolesAfterUpdate(s0, s, i, lg);
    CountUpdate(s, i, lg);
    DistanceUpdate(s0, s, i, lg);
    CountsAfterMove(s0, s, s[i := lg], G, mg, lg);
  }

  lemma CountsAfterMove(s0: seq<Tgid>, s: seq<Tgid>, s': seq<Tgid>, G: set<Tgid>, mg: Tgid, lg: Tgid)
    requires Progress(s0, s, G) && |s'| == |s|
    requires IsMost(s, G, mg) && IsLeast(s, G, lg) && Count(s, mg) >= Count(s, lg) + 2
    requires forall g :: Gainer(s0, s', g) <==> g == lg || Gainer(s0, s, g)
    requires forall g :: Loser(s0, s', g) <==> g == mg || Loser(s0, s, g)
    requires Count(s', lg) == Count(s, lg) + 1 && Count(s', mg) + 1 == Count(s, mg)
    requires forall g | g != lg && g != mg :: Count(s', g) == Count(s, g)
    ensures Progress(s0, s', G)
  {
    assert !Gainer(s0, s, mg) && !Loser(s0, s, lg);
    forall g | Gainer(s0, s', g) ensures Count(s', g) <= Count(s, lg) + 1 {
      assert g != lg ==> Count(s, g) <= Count(s, lg) + 1;
    }
    forall g | Loser(s0, s', g) && g in G ensures Count(s, mg) <= Count(s', g) + 1 {
      assert g != mg ==> Count(s, mg) <= Count(s, g) + 1;
    }
    assert forall g | g in G :: Count(s, lg) <= Count(s', g) <= Count(s, mg);
  }

  // ---------- The greedy rebalance as a function ----------

  /** Shards i.. that no current group owns go to the least loaded group, in
      order. */
  ghost function AssignAll(s0: seq<Tgid>, s: seq<Tgid>, G: set<Tgid>, i: nat): (r: seq<Tgid>)
    requires G != {} && Progress(s0, s, G) && NoLosers(s0, s, G)
    requires i <= |s| && s[i..] == s0[i..]
    requires forall k | 0 <= k < i :: s[k] in G
    ensures Progress(s0, r, G) && NoLosers(s0, r, G) && AssignedTo(r, G)
    decreases |s| - i
  {
    if i == |s| then s
    else
      assert s[i] == s[i..][0] == s0[i..][0] == s0[i];
      assert s[i + 1..] == s[i..][1..] == s0[i + 1..];
      if s[i] in G then AssignAll(s0, s, G, i + 1)
      else
        AssignKeepsProgress(s0, s, G, i);
        AssignAll(s0, s[i := Least(s, G)], G, i + 1)
  }

  /** The first shard that g owns. */
  function FirstOwned(s: seq<Tgid>, g: Tgid): (i: nat)
    requires g in s
    ensures i < |s| && s[i] == g
    ensures forall k | 0 <= k < i :: s[k] != g
  {
    if s[0] == g then 0 else 1 + FirstOwned(s[1..], g)
  }

  ghost predicate Uneven(s: seq<Tgid>, G: set<Tgid>)
    requires G != {}
  {
    Count(s, Most(s, G)) >= Count(s, Least(s, G)) + 2
  }

  /** Shards move from the most to the least loaded group until the two are
      within one of each other. Each round moves a shard for the first time,
      so there are at most |s0| rounds. */
  ghost function MoveAll(s0: seq<Tgid>, s: seq<Tgid>, G: set<Tgid>): (r: seq<Tgid>)
    requires G != {} && Progress(s0, s, G) && AssignedTo(s, G)
    ensures Progress(s0, r, G) && AssignedTo(r, G) && Balanced(r, G)
    decreases |s0| - Distance(s0, s)
  {
    if Uneven(s, G) then
      var mg, lg := Most(s, G), Least(s, G);
      var i := FirstOwned(s, mg);
      MoveKeepsProgress(s0, s, G, i, mg, lg);
      MoveAll(s0, s[i := lg], G)
    else s
  }

  lemma StartsInProgress(s0: seq<Tgid>, G: set<Tgid>)
    ensures Progress(s0, s0, G) && NoLosers(s0, s0, G) && Distance(s0, s0) == 0
  {
    DistanceToSelf(s0);
  }

  /** The assignment that Rebalance leaves. It is a function of the shards and
      of the set of gids alone. */
  ghost function Rebalanced(s0: seq<Tgid>, G: set<Tgid>): (r: seq<Tgid>)
    ensures |r| == |s0|
  {
    if G == {} then seq(|s0|, _ => 0)
    else
      StartsInProgress(s0, G);
      MoveAll(s0, AssignAll(s0, s0, G, 0), G)
  }

  // ---------- Sums over a set of groups ----------

  /** Sums compare when their terms do: f + b <= h + a termwise. */
  lemma {:induction false} SumMono(G: set<Tgid>, f: Tgid -> int, b: Tgid -> int, h: Tgid -> int, a: Tgid -> int)
    requires forall g | g in G :: f(g) + b(g) <= h(g) + a(g)
    ensures Sum(G, f) + Sum(G, b) <= Sum(G, h) + Sum(G, a)
  {
    if G != {} {
      var g := Pick(G);
      SumMono(G - {g}, f, b, h, a);
    }
  }

  lemma {:induction false} SumBounds(G: set<Tgid>, f: Tgid -> int, lo: int, hi: int)
    requires forall g | g in G :: lo <= f(g) <= hi
    ensures lo * |G| <= Sum(G, f) <= hi * |G|
  {
    if G != {} {
      var g := Pick(G);
      SumBounds(G - {g}, f, lo, hi);
      assert |G| == |G - {g}| + 1;
      OneMore(lo, |G - {g}|);
      OneMore(hi, |G - {g}|);
    }
  }

  lemma OneMore(x: int, n: nat)
    ensures x * (n + 1) == x * n + x
  {
  }

  /** Group sizes as a function of the gid. */
  ghost function Sizes(s: seq<Tgid>): Tgid -> int {
    g => Count(s, g)
  }

  /** One shard more adds one to the sum of sizes. */
  lemma SumOneMore(t: seq<Tgid>, G: set<Tgid>, x: Tgid)
    requires x in G
    ensures Sum(G, Sizes([x] + t)) == Sum(G, Sizes(t)) + 1
  {
    var s := [x] + t;
    SumSplit(G, Sizes(s), x);
    SumSplit(G, Sizes(t), x);
    SumMono(G - {x}, Sizes(s), Sizes(t), Sizes(t), Sizes(t));
    SumMono(G - {x}, Sizes(t), Sizes(t), Sizes(s), Sizes(t));
  }

  lemma {:induction false} SumOfSizes(s: seq<Tgid>, G: set<Tgid>)
    requires AssignedTo(s, G)
    ensures Sum(G, Sizes(s)) == |s|
  {
    if |s| == 0 {
      SumBounds(G, Sizes(s), 0, 0);
    } else {
      assert forall i | 0 <= i < |s[1..]| :: s[1..][i] == s[i + 1];
      SumOfSizes(s[1..], G);
      SumOneMore(s[1..], G, s[0]);
      assert s == [s[0]] + s[1..];
    }
  }

  /** A balanced assignment gives each of the n groups floor(N/n) shards or one
      more, and leaves no shard out. */
  lemma BalancedSizes(s: seq<Tgid>, G: set<Tgid>)
    requires G != {} && AssignedTo(s, G) && Balanced(s, G)
    ensures forall g | g in G :: |s| / |G| <= Count(s, g) <= |s| / |G| + 1
    ensures Sum(G, Sizes(s)) == |s|
  {
    SumOfSizes(s, G);
    forall g | g in G ensures |s| / |G| <= Count(s, g) <= |s| / |G| + 1 {
      BalancedSize(Sizes(s), G, g);
    }
  }

  lemma BalancedSize(f: Tgid -> int, G: set<Tgid>, g: Tgid)
    requires g in G && Sum(G, f) >= 0
    requires forall h | h in G :: f(g) - 1 <= f(h) <= f(g) + 1
    ensures Sum(G, f) / |G| <= f(g) <= Sum(G, f) / |G| + 1
  {
    var rest, c := G - {g}, f(g);
    SumSplit(G, f, g);
    SumBounds(rest, f, c - 1, c + 1);
    var total, m := Sum(rest, f), |rest|;
    assert |G| == m + 1 && Sum(G, f) == total + c;
    NearAverage(total, m, c);
  }

  /** m others within one of c: their average with c is c or less than one off. */
  lemma NearAverage(total: int, m: nat, c: int)
    requires (c - 1) * m <= total <= (c + 1) * m && total + c >= 0
    ensures (total + c) / (m + 1) <= c <= (total + c) / (m + 1) + 1
  {
    OneMore(c - 1, m);
    OneMore(c + 1, m);
    Quotient(total + c, m + 1, c);
  }

  lemma Quotient(total: nat, n: nat, c: int)
    requires n > 0 && (c - 1) * n < total < (c + 1) * n
    ensures total / n <= c <= total / n + 1
  {
    var q := total / n;
    assert q * n <= total < (q + 1) * n;
    Cancel(q, c + 1, n);
    Cancel(c - 1, q + 1, n);
  }

  lemma Cancel(a: int, b: int, n: nat)
    requires a * n < b * n
    ensures a < b
  {
    assert (b - a) * n == b * n - a * n;
  }

  // ---------- The fewest moves ----------

  /** The owners of the shards on which a and b agree. */
  function Agreed(a: seq<Tgid>, b: seq<Tgid>): seq<Tgid>
    requires |a| == |b|
  {
    if |a| == 0 then []
    else (if a[0] == b[0] then [a[0]] else []) + Agreed(a[1..], b[1..])
  }

  lemma {:induction false} AgreedBounds(a: seq<Tgid>, b: seq<Tgid>)
    requires |a| == |b|
    ensures |Agreed(a, b)| + Distance(a, b) == |a|
    ensures forall g :: Count(Agreed(a, b), g) <= Count(a, g) && Count(Agreed(a, b), g) <= Count(b, g)
    ensures forall i | 0 <= i < |Agreed(a, b)| :: Agreed(a, b)[i] in b
  {
    if |a| > 0 {
      AgreedBounds(a[1..], b[1..]);
      assert a == [a[0]] + a[1..] && b == [b[0]] + b[1..];
      var rest := Agreed(a[1..], b[1..]);
      forall g ensures Count(Agreed(a, b), g) <= Count(a, g) && Count(Agreed(a, b), g) <= Count(b, g) {
        assert Count(a, g) == Count([a[0]], g) + Count(a[1..], g);
        assert Count(b, g) == Count([b[0]], g) + Count(b[1..], g);
        assert Count(rest, g) <= Count(a[1..], g);
      }
    }
  }

  lemma {:induction false} AgreedUnlessLoser(a: seq<Tgid>, b: seq<Tgid>, g: Tgid)
    requires |a| == |b| && !Loser(a, b, g)
    ensures Count(Agreed(a, b), g) == Count(a, g)
  {
    if |a| > 0 {
      forall i | 0 <= i < |a| && a[i] == g ensures b[i] == g { assert !(a[i] == g && b[i] != g); }
      AgreedUnlessLoser(a[1..], b[1..], g);
      assert a == [a[0]] + a[1..];
    }
  }

  lemma {:induction false} AgreedSymmetric(a: seq<Tgid>, b: seq<Tgid>)
    requires |a| == |b|
    ensures Agreed(a, b) == Agreed(b, a)
  {
    if |a| > 0 {
      AgreedSymmetric(a[1..], b[1..]);
    }
  }

  lemma AgreedUnlessGainer(a: seq<Tgid>, b: seq<Tgid>, g: Tgid)
    requires |a| == |b| && !Gainer(a, b, g)
    ensures Count(Agreed(a, b), g) == Count(b, g)
  {
    assert !Loser(b, a, g);
    AgreedUnlessLoser(b, a, g);
    AgreedSymmetric(a, b);
  }

  /** The outcome of a rebalance with at least one group. */
  ghost predicate Settled(s0: seq<Tgid>, s: seq<Tgid>, G: set<Tgid>) {
    Progress(s0, s, G) && AssignedTo(s, G) && Balanced(s, G)
  }

  lemma RebalancedSettles(s0: seq<Tgid>, G: set<Tgid>)
    requires G != {}
    ensures Settled(s0, Rebalanced(s0, G), G)
  {
    StartsInProgress(s0, G);
  }

  /** When every gainer has the fewest shards that a group may have: trading a
      gainer's shard never helps. */
  lemma KeepsMostWhenLow(s0: seq<Tgid>, s: seq<Tgid>, t: seq<Tgid>, G: set<Tgid>)
    requires |s| == |s0| && |t| == |s0|
    requires forall g | g in G && Gainer(s0, s, g) :: !Loser(s0, s, g) && Count(s, g) <= Count(t, g)
    ensures Sum(G, Sizes(Agreed(s0, t))) + Sum(G, Sizes(s)) <= Sum(G, Sizes(Agreed(s0, s))) + Sum(G, Sizes(t))
  {
    var kept, kept' := Agreed(s0, s), Agreed(s0, t);
    AgreedBounds(s0, t);
    forall g | g in G ensures Count(kept', g) + Count(s, g) <= Count(kept, g) + Count(t, g) {
      if Gainer(s0, s, g) {
        AgreedUnlessLoser(s0, s, g);
      } else {
        AgreedUnlessGainer(s0, s, g);
      }
    }
    SumMono(G, Sizes(kept'), Sizes(s), Sizes(kept), Sizes(t));
  }

  /** When every loser still has the most shards that a group may have. */
  lemma KeepsMostWhenHigh(s0: seq<Tgid>, s: seq<Tgid>, t: seq<Tgid>, G: set<Tgid>)
    requires |s| == |s0| && |t| == |s0|
    requires forall g | g in G && Loser(s0, s, g) :: !Gainer(s0, s, g) && Count(t, g) <= Count(s, g)
    ensures Sum(G, Sizes(Agreed(s0, t))) <= Sum(G, Sizes(Agreed(s0, s)))
  {
    var kept, kept' := Agreed(s0, s), Agreed(s0, t);
    AgreedBounds(s0, t);
    forall g | g in G ensures Count(kept', g) <= Count(kept, g) {
      if Loser(s0, s, g) {
        AgreedUnlessGainer(s0, s, g);
      } else {
        AgreedUnlessLoser(s0, s, g);
      }
    }
    SumMono(G, Sizes(kept'), Sizes(s), Sizes(kept), Sizes(s));
  }

  /** Any settled assignment keeps at least as many shards in place as any
      other balanced assignment t. */
  lemma SettledKeepsMost(s0: seq<Tgid>, s: seq<Tgid>, t: seq<Tgid>, G: set<Tgid>)
    requires G != {} && Settled(s0, s, G)
    requires |t| == |s0| && AssignedTo(t, G) && Balanced(t, G)
    ensures Distance(s0, s) <= Distance(s0, t)
  {
    BalancedSizes(s, G);
    BalancedSizes(t, G);
    AgreedBounds(s0, s);
    AgreedBounds(s0, t);
    SumOfSizes(Agreed(s0, s), G);
    SumOfSizes(Agreed(s0, t), G);
    var q := |s0| / |G|;
    if low :| low in G && Loser(s0, s, low) && Count(s, low) == q {
      // Every gainer is at q as well.
      KeepsMostWhenLow(s0, s, t, G);
    } else {
      // Every loser still has q + 1 shards.
      KeepsMostWhenHigh(s0, s, t, G);
    }
  }

  /** Rebalance is movement-optimal: no assignment of the shards to these
      groups whose sizes differ by at most one is closer to the start. */
  lemma RebalanceIsOptimal(s0: seq<Tgid>, t: seq<Tgid>, G: set<Tgid>)
    requires G != {} && |t| == |s0| && AssignedTo(t, G) && Balanced(t, G)
    ensures Distance(s0, Rebalanced(s0, G)) <= Distance(s0, t)
  {
    RebalancedSettles(s0, G);
    SettledKeepsMost(s0, Rebalanced(s0, G), t, G);
  }

  /** After a rebalance, sizes are floor(N/n) or one more, and no group both
      gave and received shards. */
  lemma RebalanceIsFair(s0: seq<Tgid>, G: set<Tgid>)
    requires G != {}
    ensures var s := Rebalanced(s0, G);
      && AssignedTo(s, G)
      && (forall g | g in G :: |s0| / |G| <= Count(s, g) <= |s0| / |G| + 1)
      && Sum(G, Sizes(s)) == |s0|
      && (forall g | g in G :: !(Gainer(s0, s, g) && Loser(s0, s, g)))
  {
    RebalancedSettles(s0, G);
    BalancedSizes(Rebalanced(s0, G), G);
  }

  /** Within the groups that were balanced before and stay members, no shard
      changes hands. */
  lemma SurvivorsDoNotTrade(s0: seq<Tgid>, G0: set<Tgid>, G: set<Tgid>, i: nat)
    requires G != {} && Balanced(s0, G0)
    requires i < |s0| && Rebalanced(s0, G)[i] != s0[i]
    ensures s0[i] !in G0 * G || Rebalanced(s0, G)[i] !in G0 * G
  {
    RebalancedSettles(s0, G);
    SettledSurvivors(s0, Rebalanced(s0, G), G0, G, i);
  }

  lemma SettledSurvivors(s0: seq<Tgid>, s: seq<Tgid>, G0: set<Tgid>, G: set<Tgid>, i: nat)
    requires Settled(s0, s, G) && Balanced(s0, G0)
    requires i < |s0| && s[i] != s0[i]
    ensures s0[i] !in G0 * G || s[i] !in G0 * G
  {
    var loser, gainer := s0[i], s[i];
    assert Loser(s0, s, loser) && Gainer(s0, s, gainer);
    if loser in G {
      assert !Gainer(s0, s, loser) && !Loser(s0, s, gainer);
      assert Count(s, gainer) <= Count(s, loser);
      ShrunkOrGrown(s0, s, loser, gainer, i);
      assert Count(s0, loser) >= Count(s0, gainer) + 2;
    }
  }

  lemma ShrunkOrGrown(s0: seq<Tgid>, s: seq<Tgid>, loser: Tgid, gainer: Tgid, i: nat)
    requires |s| == |s0| && i < |s| && s0[i] == loser && s[i] == gainer && loser != gainer
    requires !Gainer(s0, s, loser) && !Loser(s0, s, gainer)
    ensures Count(s, loser) < Count(s0, loser) && Count(s0, gainer) < Count(s, gainer)
  {
    // Undo the change of shard i: the rest can only widen the two gaps.
    var u := s[i := loser];
    CountUpdate(s, i, loser);
    forall k | 0 <= k < |u| && u[k] == loser ensures s0[k] == loser {
      assert k != i ==> s[k] == u[k];
    }
    forall k | 0 <= k < |u| && s0[k] == gainer ensures u[k] == gainer {
      assert k != i && s[k] == u[k];
    }
    AgreedUnlessGainer(s0, u, loser);
    AgreedUnlessLoser(s0, u, gainer);
    AgreedBounds(s0, u);
  }
}
