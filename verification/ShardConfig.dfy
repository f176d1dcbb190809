/** The ShardConfig object: joins, leaves and the in-place greedy rebalance.
    The number of shards is a parameter of at most 256, because the search for
    the least loaded group starts from the sentinel 257. */
module ShardConfig {
  import opened Collections
  import opened ShardBalance
  import opened ShardConfigs
  import opened ShardLaws

  /** How Join and Leave end. Fatal stands for log.Fatalf, which exits. */
  datatype Outcome = Changed | Refused | Fatal

  const MAX_SHARDS := 256
  const COUNT_SENTINEL := 257

  class ShardConfig {
    var num: int
    const shards: array<Tgid>
    var groups: Servers

    ghost predicate Valid()
      reads this
    {
      shards.Length <= MAX_SHARDS
    }

    ghost function Value(): Config
      reads this, shards
    {
      Config(num, shards[..], groups)
    }

    constructor MakeShardConfig(n: nat)
      requires n <= MAX_SHARDS
      ensures Valid() && fresh(shards) && shards.Length == n && Value() == Initial(n)
      ensures num == 0 && groups == map[] && forall k | 0 <= k < n :: shards[k] == 0
    {
      num, groups := 0, map[];
      shards := new Tgid[n](_ => 0);
      new;
      assert shards[..] == Initial(n).shards;
    }

    /** A deep copy: the two objects share neither array nor map. */
    method Copy() returns (c: ShardConfig)
      requires Valid()
      ensures c.Valid() && fresh(c) && fresh(c.shards) && c.Value() == Value()
    {
      c := new ShardConfig.MakeShardConfig(shards.Length);
      c.num := num;
      c.CopyShards(shards);
      c.groups := CopyGroups();
    }

    method CopyShards(from: array<Tgid>)
      requires from.Length == shards.Length && from != shards
      modifies shards
      ensures shards[..] == from[..]
    {
      forall i | 0 <= i < shards.Length {
        shards[i] := from[i];
      }
    }

    method CopyGroups() returns (copy: Servers)
      ensures copy == groups
    {
      copy := map[];
      var todo := groups.Keys;
      while todo != {}
        invariant todo <= groups.Keys
        invariant copy == groups - todo
        decreases todo
      {
        var k := PickAny(todo);
        OneMoreEntry(groups, todo, k);
        copy := copy[k := groups[k]];
        todo := todo - {k};
      }
      assert groups - {} == groups;
    }

    /** The most and the least loaded group and their loads. Neither the
        sentinels nor the random order of the map shows in the answer. */
    method Analyze() returns (mg: Tgid, mn: int, lg: Tgid, ln: int)
      requires Valid()
      ensures groups.Keys != {} ==> mg == Most(shards[..], groups.Keys) && mn == Count(shards[..], mg)
      ensures groups.Keys != {} ==> lg == Least(shards[..], groups.Keys) && ln == Count(shards[..], lg)
      ensures forall g | g in groups ::
        multiset(shards[..])[g] < mn || (multiset(shards[..])[g] == mn == multiset(shards[..])[mg] && mg <= g)
      ensures forall g | g in groups ::
        multiset(shards[..])[g] > ln || (multiset(shards[..])[g] == ln == multiset(shards[..])[lg] && lg <= g)
      ensures groups.Keys != {} ==> mg in groups && lg in groups
      ensures groups.Keys == {} ==> mg == lg == -1
    {
      var counts := CountShards();
      mn, mg, ln, lg := -1, -1, COUNT_SENTINEL, -1;
      var sorted := SortedGids();
      ghost var s, G := shards[..], groups.Keys;
      assert forall g :: g in sorted <==> g in G;
      for i := 0 to |sorted|
        invariant s == shards[..]
        invariant i == 0 ==> mn == -1 && mg == -1 && ln == COUNT_SENTINEL && lg == -1
        invariant i > 0 ==> mg in sorted[..i] && mn == Count(s, mg) && lg in sorted[..i] && ln == Count(s, lg)
        invariant forall k | 0 <= k < i :: Beats(mn, mg, Count(s, sorted[k]), sorted[k])
        invariant forall k | 0 <= k < i :: Under(ln, lg, Count(s, sorted[k]), sorted[k])
      {
        var g := sorted[i];
        var c := if g in counts then counts[g] else 0;
        CountAtMost(s, g);
        if c < ln {
          ln, lg := c, g;
        }
        if c > mn {
          mn, mg := c, g;
        }
      }
      if |sorted| > 0 {
        assert sorted[0] in sorted;
      }
      if G != {} {
        assert Pick(G) in G;
        assert Pick(G) in sorted;
        UniqueChoices(s, G, sorted, mg, mn, lg, ln);
      }
    }

    method CountShards() returns (counts: map<Tgid, int>)
      ensures forall g :: (if g in counts then counts[g] else 0) == Count(shards[..], g)
    {
      counts := map[];
      var i := 0;
      while i < shards.Length
        invariant i <= shards.Length
        invariant forall g :: (if g in counts then counts[g] else 0) == Count(shards[..i], g)
      {
        var g := shards[i];
        counts := counts[g := (if g in counts then counts[g] else 0) + 1];
        assert shards[..i + 1] == shards[..i] + [g];
        i := i + 1;
      }
      assert shards[..] == shards[..i];
    }

    /** The gids in increasing order, whatever order the map yields them in. */
    method SortedGids() returns (sorted: seq<Tgid>)
      ensures forall g :: g in sorted <==> g in groups
      ensures Ascending(sorted)
    {
      sorted := [];
      var todo := groups.Keys;
      while todo != {}
        invariant todo <= groups.Keys
        invariant forall g :: g in sorted <==> g in groups.Keys - todo
        invariant Ascending(sorted)
        decreases todo
      {
        var g := PickAny(todo);
        todo := todo - {g};
        sorted := InsertGid(sorted, g);
      }
    }

    /** Balance the assignment of shards to groups. Each shard is written at
        most once, so the number of writes is the number of shards moved. */
    method Rebalance() returns (ghost writes: nat)
      requires Valid()
      modifies shards
      ensures shards[..] == Rebalanced(old(shards[..]), groups.Keys)
      ensures groups.Keys != {} ==> writes == Distance(old(shards[..]), shards[..])
      ensures groups.Keys != {} ==> IsGreedy(old(shards[..]), shards[..], groups.Keys)
      ensures groups.Keys == {} ==> forall k | 0 <= k < shards.Length :: shards[k] == 0
    {
      ghost var s0, G := shards[..], groups.Keys;
      writes := 0;
      if |groups| < 1 {
        assert G == {};
        for k := 0 to shards.Length
          invariant forall j | 0 <= j < k :: shards[j] == 0
        {
          shards[k] := 0;
          writes := writes + 1;
        }
        assert shards[..] == Rebalanced(s0, G);
        return;
      }
      assert G != {};
      StartsInProgress(s0, G);
      writes := AssignOrphans();
      ghost var s1 := shards[..];
      var moved := true;
      while moved
        invariant Progress(s0, shards[..], G) && AssignedTo(shards[..], G)
        invariant MoveAll(s0, shards[..], G) == MoveAll(s0, s1, G)
        invariant writes == Distance(s0, shards[..])
        invariant !moved ==> MoveAll(s0, shards[..], G) == shards[..]
        decreases |s0| - Distance(s0, shards[..]), moved
      {
        moved := MoveOne(s0);
        writes := writes + if moved then 1 else 0;
      }
      RebalanceIsGreedy(s0, shards[..], G);
    }

    /** One round of the move loop; false when the loads are close enough. */
    method MoveOne(ghost s0: seq<Tgid>) returns (moved: bool)
      requires Valid() && groups.Keys != {}
      requires Progress(s0, shards[..], groups.Keys) && AssignedTo(shards[..], groups.Keys)
      modifies shards
      ensures var s, G := old(shards[..]), groups.Keys;
        && moved == Uneven(s, G)
        && (!moved ==> shards[..] == s)
        && (moved ==> shards[..] == s[FirstOwned(s, Most(s, G)) := Least(s, G)])
        && Progress(s0, shards[..], G) && AssignedTo(shards[..], G)
        && MoveAll(s0, shards[..], G) == MoveAll(s0, s, G)
        && Distance(s0, shards[..]) == Distance(s0, s) + if moved then 1 else 0
    {
      ghost var s, G := shards[..], groups.Keys;
      var mg, mn, lg, ln := Analyze();
      if mn < ln + 2 {
        return false;
      }
      var k := 0;
      while k < shards.Length && shards[k] != mg
        invariant k <= shards.Length && shards[..] == s
        invariant forall j | 0 <= j < k :: s[j] != mg
      {
        k := k + 1;
      }
      assert mg in s;
      FirstOwnedIs(s, mg, k);
      MoveKeepsProgress(s0, s, G, k, mg, lg);
      shards[k] := lg;
      assert shards[..] == s[k := lg];
      moved := true;
    }

    /** Shards that no current group owns go to the least loaded group. */
    method AssignOrphans() returns (ghost writes: nat)
      requires Valid() && groups.Keys != {}
      requires Progress(shards[..], shards[..], groups.Keys) && NoLosers(shards[..], shards[..], groups.Keys)
      modifies shards
      ensures var s0, G := old(shards[..]), groups.Keys;
        shards[..] == AssignAll(s0, s0, G, 0) && writes == Distance(s0, shards[..])
      ensures Placed(old(shards[..]), shards[..], groups.Keys)
    {
      ghost var s0, G := shards[..], groups.Keys;
      OrphansGoToLeast(s0, G);
      DistanceToSelf(s0);
      writes := 0;
      var copy := shards[..];
      for k := 0 to |copy|
        invariant Assigning(s0, shards[..], G, k)
        invariant AssignAll(s0, shards[..], G, k) == AssignAll(s0, s0, G, 0)
        invariant writes == Distance(s0, shards[..])
      {
        ghost var wrote := AssignOne(s0, k, copy[k]);
        writes := writes + wrote;
      }
    }

    /** The body of that loop for shard k, which g owned at the start. */
    method AssignOne(ghost s0: seq<Tgid>, k: nat, g: Tgid) returns (ghost wrote: nat)
      requires Valid() && groups.Keys != {} && k < shards.Length
      requires Assigning(s0, shards[..], groups.Keys, k) && g == s0[k]
      modifies shards
      ensures shards[..] == AssignedAt(old(shards[..]), groups.Keys, k)
      ensures Assigning(s0, shards[..], groups.Keys, k + 1)
      ensures AssignAll(s0, shards[..], groups.Keys, k + 1) == AssignAll(s0, old(shards[..]), groups.Keys, k)
      ensures Distance(s0, shards[..]) == Distance(s0, old(shards[..])) + wrote
    {
      ghost var s := shards[..];
      wrote := 0;
      AssignStep(s0, s, groups.Keys, k);
      if g !in groups {
        var _, _, lg, _ := Analyze();
        shards[k] := lg;
        wrote := 1;
      }
      assert shards[..] == AssignedAt(s, groups.Keys, k);
    }

    /** Add groups. Only a success counts as a change; a refusal may leave some
        of the new groups in place. */
    method Join(joining: Servers) returns (r: Outcome)
      modifies this
      ensures r == Changed <==> CanJoin(old(groups), joining)
      ensures r == Changed <==>
        && joining != map[]
        && (forall g | g in joining :: g !in old(groups))
        && (forall g, h, s | g in joining && h in old(groups) && s in joining[g] :: s !in old(groups)[h])
        && (forall g, h, s | g in joining && h in joining && g != h && s in joining[g] :: s !in joining[h])
      ensures r == Changed ==> groups == old(groups) + joining && num == old(num) + 1
      ensures r != Changed ==> num == old(num)
      ensures r == Refused ==> !(old(groups).Keys !! joining.Keys)
      ensures r == Fatal ==> joining == map[] || !NoneClash(old(groups), joining)
      ensures Extends(old(groups), groups, joining)
      ensures forall g | g in old(groups) :: g in groups && groups[g] == old(groups)[g]
      ensures forall g | g in groups && g !in old(groups) :: g in joining && groups[g] == joining[g]
    {
      var todo := joining.Keys;
      ghost var start := groups;
      CanJoinMeans(start, joining);
      while todo != {}
        invariant todo <= joining.Keys && num == old(num)
        invariant groups == start + (joining - todo)
        invariant start.Keys !! (joining - todo).Keys
        invariant NoneClash(start, joining - todo)
        decreases todo
      {
        var gid := PickAny(todo);
        if gid in groups {
          assert gid in start.Keys && gid in joining.Keys;
          return Refused;
        }
        var clash := ClashesWithAny(joining[gid]);
        if clash {
          ClashStopsJoin(start, joining, todo, gid);
          return Fatal;
        }
        NoneClashGrows(start, joining, todo, gid);
        groups := groups[gid := joining[gid]];
        todo := todo - {gid};
      }
      assert joining - todo == joining;
      if joining == map[] {
        return Fatal;
      }
      num := num + 1;
      r := Changed;
    }

    method ClashesWithAny(servers: seq<string>) returns (clash: bool)
      ensures clash <==> exists h | h in groups :: Clash(groups[h], servers)
    {
      var todo := groups.Keys;
      while todo != {}
        invariant todo <= groups.Keys
        invariant forall h | h in groups && h !in todo :: !Clash(groups[h], servers)
        decreases todo
      {
        var h := PickAny(todo);
        clash := SameServer(groups[h], servers);
        if clash {
          return;
        }
        todo := todo - {h};
      }
      clash := false;
    }

    /** Remove groups one after the other; a gid that is not, or no longer, a
        group stops the call. */
    method Leave(gids: seq<Tgid>) returns (r: Outcome)
      modifies this
      ensures r == Changed <==> CanLeave(old(groups), gids)
      ensures r == Changed <==>
        && gids != [] && (forall i | 0 <= i < |gids| :: gids[i] in old(groups))
        && (forall i, j | 0 <= i < j < |gids| :: gids[i] != gids[j])
      ensures r == Changed ==> groups == NextGroups(old(groups), ShardConfigs.Leave(gids)) && num == old(num) + 1
      ensures r == Changed ==> forall g :: g in groups <==> g in old(groups) && g !in gids
      ensures r == Fatal <==> gids == []
      ensures r != Changed ==> num == old(num)
      ensures forall g :: g in groups ==> g in old(groups) && groups[g] == old(groups)[g]
      ensures forall g :: g in old(groups) && g !in gids ==> g in groups
    {
      for i := 0 to |gids|
        invariant num == old(num)
        invariant groups == old(groups) - (set g | g in gids[..i])
        invariant forall j | 0 <= j < i :: gids[j] in old(groups)
        invariant forall j, k | 0 <= j < k < i :: gids[j] != gids[k]
      {
        if gids[i] !in groups {
          return Refused;
        }
        groups := groups - {gids[i]};
        assert gids[..i + 1] == gids[..i] + [gids[i]];
      }
      if gids == [] {
        return Fatal;
      }
      assert gids[..|gids|] == gids;
      num := num + 1;
      r := Changed;
    }

    method JoinBalance(joining: Servers) returns (r: Outcome)
      requires Valid()
      modifies this, shards
      ensures Valid()
      ensures r == Changed <==> CanJoin(old(groups), joining)
      ensures r == Changed ==> Value() == Apply(old(Value()), ShardConfigs.Join(joining))
      ensures r != Changed ==> num == old(num) && shards[..] == old(shards[..])
    {
      r := Join(joining);
      if r == Changed {
        ghost var _ := Rebalance();
      }
    }

    method LeaveBalance(gids: seq<Tgid>) returns (r: Outcome)
      requires Valid()
      modifies this, shards
      ensures Valid()
      ensures r == Changed <==> CanLeave(old(groups), gids)
      ensures r == Changed ==> Value() == Apply(old(Value()), ShardConfigs.Leave(gids))
      ensures r != Changed ==> num == old(num) && shards[..] == old(shards[..])
    {
      r := Leave(gids);
      if r == Changed {
        ghost var _ := Rebalance();
      }
    }

    method IsMember(gid: Tgid) returns (b: bool)
      ensures b <==> gid in shards[..]
    {
      for i := 0 to shards.Length
        invariant gid !in shards[..i]
      {
        if shards[i] == gid {
          return true;
        }
      }
      return false;
    }

    /** The test's sanity check; false stands for a failed test. */
    method CheckConfig(expected: seq<Tgid>) returns (pass: bool)
      requires Valid()
      ensures pass <==> PassesCheck(Value(), expected)
      ensures pass <==>
        && |expected| == |groups| && (forall g | g in expected :: g in groups)
        && (expected != [] ==> forall k | 0 <= k < shards.Length :: shards[k] in groups)
        && (forall g, h | g in groups && h in groups :: multiset(shards[..])[g] <= multiset(shards[..])[h] + 1)
    {
      CheckMeans(Value(), expected);
      if |groups| != |expected| {
        return false;
      }
      for i := 0 to |expected|
        invariant forall k | 0 <= k < i :: expected[k] in groups
      {
        if expected[i] !in groups {
          MissingGroup(Value(), expected, i);
          return false;
        }
      }
      if |expected| > 0 {
        for i := 0 to shards.Length
          invariant forall k | 0 <= k < i :: shards[k] in groups
        {
          if shards[i] !in groups {
            assert shards[..][i] !in groups.Keys;
            return false;
          }
        }
      }
      var min, max := Extremes();
      pass := max <= min + 1;
    }

    /** The loads CheckConfig compares. */
    method Extremes() returns (min: int, max: int)
      requires Valid()
      ensures max <= min + 1 <==> Balanced(shards[..], groups.Keys)
    {
      var counts := CountShards();
      ghost var s := shards[..];
      min, max := COUNT_SENTINEL, 0;
      var todo := groups.Keys;
      while todo != {}
        invariant todo <= groups.Keys
        invariant todo != groups.Keys ==> exists g | g in groups.Keys - todo :: Count(s, g) == min
        invariant max != 0 ==> exists g | g in groups.Keys - todo :: Count(s, g) == max
        invariant forall g | g in groups && g !in todo :: min <= Count(s, g) <= max
        invariant 0 <= max && 0 <= min && (todo == groups.Keys ==> max == 0 && min == COUNT_SENTINEL)
        decreases todo
      {
        var g := PickAny(todo);
        var c := if g in counts then counts[g] else 0;
        CountAtMost(s, g);
        if c > max {
          max := c;
        }
        if c < min {
          min := c;
        }
        todo := todo - {g};
        assert g in groups.Keys - todo;
      }
    }
  }

  /** Every shard before k has an owner among the groups; the others are as at the start. */
  ghost predicate Assigning(s0: seq<Tgid>, s: seq<Tgid>, G: set<Tgid>, k: nat) {
    && Progress(s0, s, G) && NoLosers(s0, s, G)
    && k <= |s| && s[k..] == s0[k..]
    && forall j | 0 <= j < k :: s[j] in G
  }

  ghost function AssignedAt(s: seq<Tgid>, G: set<Tgid>, k: nat): seq<Tgid>
    requires k < |s| && G != {}
  {
    if s[k] in G then s else s[k := Least(s, G)]
  }

  lemma AssignStep(s0: seq<Tgid>, s: seq<Tgid>, G: set<Tgid>, k: nat)
    requires G != {} && Assigning(s0, s, G, k) && k < |s|
    ensures var s' := AssignedAt(s, G, k);
      && s[k] == s0[k]
      && Assigning(s0, s', G, k + 1)
      && AssignAll(s0, s', G, k + 1) == AssignAll(s0, s, G, k)
      && Distance(s0, s') == Distance(s0, s) + if s[k] in G then 0 else 1
  {
    assert s[k] == s[k..][0] == s0[k..][0] == s0[k];
    assert s[k + 1..] == s[k..][1..] == s0[k..][1..] == s0[k + 1..];
    if s[k] !in G {
      AssignKeepsProgress(s0, s, G, k);
      assert s[k := Least(s, G)][k + 1..] == s[k + 1..];
    }
  }

  lemma CheckMeans(c: Config, expected: seq<Tgid>)
    ensures PassesCheck(c, expected) <==>
      && |expected| == |c.groups| && (forall g | g in expected :: g in c.groups)
      && (expected != [] ==> forall k | 0 <= k < |c.shards| :: c.shards[k] in c.groups)
      && (forall g, h | g in c.groups && h in c.groups :: multiset(c.shards)[g] <= multiset(c.shards)[h] + 1)
  {
  }

  lemma MissingGroup(c: Config, expected: seq<Tgid>, i: nat)
    requires i < |expected| && expected[i] !in c.groups
    ensures !PassesCheck(c, expected)
  {
    var g := expected[i];
    assert g in expected;
  }

  lemma DisjointKeys(a: Servers, b: Servers)
    ensures a.Keys !! b.Keys <==> forall g | g in b :: g !in a
  {
    var both := a.Keys * b.Keys;
    if both != {} {
      var g := Pick(both);
      assert g in both;
      assert g in a && g in b;
    } else {
      forall g | g in b ensures g !in a {
        assert g in a ==> g in both;
      }
    }
  }

  lemma CanJoinMeans(groups: Servers, joining: Servers)
    ensures CanJoin(groups, joining) <==>
      && joining != map[]
      && (forall g | g in joining :: g !in groups)
      && (forall g, h, s | g in joining && h in groups && s in joining[g] :: s !in groups[h])
      && (forall g, h, s | g in joining && h in joining && g != h && s in joining[g] :: s !in joining[h])
  {
    DisjointKeys(groups, joining);
    forall g, h | g in joining && h in groups
      ensures Clash(groups[h], joining[g]) <==> exists s :: s in joining[g] && s in groups[h]
    {
    }
    forall g, h | g in joining && h in joining
      ensures Clash(joining[g], joining[h]) <==> exists s :: s in joining[g] && s in joining[h]
    {
    }
  }

  /** groups holds all of start and otherwise only joining groups. */
  ghost predicate Extends(start: Servers, groups: Servers, joining: Servers) {
    && (forall g :: g in start ==> g in groups && groups[g] == start[g])
    && (forall g :: g in groups && g !in start ==> g in joining && groups[g] == joining[g])
  }

  /** The groups added so far share no server with the others. */
  ghost predicate NoneClash(start: Servers, added: Servers) {
    && (forall g, h | g in added && h in start :: !Clash(start[h], added[g]))
    && NoSharedServers(added)
  }

  lemma NoneClashGrows(start: Servers, joining: Servers, todo: set<Tgid>, gid: Tgid)
    requires todo <= joining.Keys && gid in todo && gid !in start
    requires start.Keys !! (joining - todo).Keys && NoneClash(start, joining - todo)
    requires forall h | h in start + (joining - todo) :: !Clash((start + (joining - todo))[h], joining[gid])
    ensures NoneClash(start, joining - (todo - {gid}))
    ensures start.Keys !! (joining - (todo - {gid})).Keys
    ensures (start + (joining - todo))[gid := joining[gid]] == start + (joining - (todo - {gid}))
  {
    var added := joining - todo;
    var groups := start + added;
    OneMoreEntry(joining, todo, gid);
    assert forall h | h in start :: groups[h] == start[h];
    assert forall h | h in added :: groups[h] == added[h];
    assert forall h | h in added :: !Clash(added[h], joining[gid]) && !Clash(joining[gid], added[h]);
  }

  lemma ClashStopsJoin(start: Servers, joining: Servers, todo: set<Tgid>, gid: Tgid)
    requires todo <= joining.Keys && gid in todo
    requires start.Keys !! (joining - todo).Keys
    requires exists h | h in start + (joining - todo) :: Clash((start + (joining - todo))[h], joining[gid])
    ensures !NoneClash(start, joining)
  {
    var h :| h in start + (joining - todo) && Clash((start + (joining - todo))[h], joining[gid]);
    if h in joining - todo {
      assert Clash(joining[h], joining[gid]) && h != gid;
    } else {
      assert Clash(start[h], joining[gid]);
    }
  }

  /** Load n of group g is at least as high as load m of h; ties go to the smaller gid. */
  predicate Beats(n: int, g: Tgid, m: int, h: Tgid) {
    n > m || (n == m && g <= h)
  }

  predicate Under(n: int, g: Tgid, m: int, h: Tgid) {
    n < m || (n == m && g <= h)
  }

  lemma CountAtMost(s: seq<Tgid>, g: Tgid)
    ensures Count(s, g) <= |s|
  {
    assert multiset(s)[g] <= |multiset(s)|;
  }

  lemma UniqueChoices(s: seq<Tgid>, G: set<Tgid>, sorted: seq<Tgid>, mg: Tgid, mn: int, lg: Tgid, ln: int)
    requires G != {} && forall g :: g in sorted <==> g in G
    requires mg in G && lg in G && mn == Count(s, mg) && ln == Count(s, lg)
    requires forall k | 0 <= k < |sorted| :: Beats(mn, mg, Count(s, sorted[k]), sorted[k])
    requires forall k | 0 <= k < |sorted| :: Under(ln, lg, Count(s, sorted[k]), sorted[k])
    ensures mg == Most(s, G) && lg == Least(s, G)
  {
    forall g | g in G ensures Beats(mn, mg, Count(s, g), g) && Under(ln, lg, Count(s, g), g) {
      assert g in sorted;
    }
    assert Beats(mn, mg, Count(s, Most(s, G)), Most(s, G));
    assert Under(ln, lg, Count(s, Least(s, G)), Least(s, G));
  }

  lemma FirstOwnedIs(s: seq<Tgid>, g: Tgid, k: nat)
    requires g in s && k <= |s| && (k < |s| ==> s[k] == g)
    requires forall j | 0 <= j < k :: s[j] != g
    ensures k < |s| && k == FirstOwned(s, g)
  {
    var f := FirstOwned(s, g);
  }

  method InsertGid(sorted: seq<Tgid>, g: Tgid) returns (r: seq<Tgid>)
    requires Ascending(sorted) && g !in sorted
    ensures Ascending(r) && forall x :: x in r <==> x == g || x in sorted
  {
    var k := 0;
    while k < |sorted| && sorted[k] < g
      invariant k <= |sorted| && forall i | 0 <= i < k :: sorted[i] < g
    {
      k := k + 1;
    }
    InsertKeepsOrder(sorted, g, k);
    r := sorted[..k] + [g] + sorted[k..];
  }

  lemma InsertKeepsOrder(s: seq<Tgid>, g: Tgid, k: nat)
    requires Ascending(s) && g !in s && k <= |s| && (k < |s| ==> s[k] >= g)
    requires forall i | 0 <= i < k :: s[i] < g
    ensures Ascending(s[..k] + [g] + s[k..])
    ensures forall x :: x in s[..k] + [g] + s[k..] <==> x == g || x in s
  {
    forall j | k <= j < |s| ensures g < s[j] {
      var x := s[k];
      assert x in s;
    }
    assert s == s[..k] + s[k..];
  }

  method SameServer(a: seq<string>, b: seq<string>) returns (same: bool)
    ensures same <==> Clash(a, b)
  {
    for i := 0 to |a|
      invariant forall k | 0 <= k < i :: a[k] !in b
    {
      for j := 0 to |b|
        invariant a[i] !in b[..j]
      {
        if a[i] == b[j] {
          assert a[i] in a && a[i] in b;
          return true;
        }
      }
    }
    return false;
  }
}
