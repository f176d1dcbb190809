/** Configurations as values, and what every successful sequence of joins and
    leaves keeps. */
module ShardConfigs {
  import opened Collections
  import opened ShardBalance

  type Servers = map<Tgid, seq<string>>

  datatype Config = Config(num: int, shards: seq<Tgid>, groups: Servers)

  function Initial(n: nat): Config {
    Config(0, seq(n, _ => 0), map[])
  }

  /** Two groups name the same server. */
  predicate Clash(a: seq<string>, b: seq<string>) {
    exists s :: s in a && s in b
  }

  ghost predicate NoSharedServers(groups: Servers) {
    forall g, h | g in groups && h in groups && g != h :: !Clash(groups[g], groups[h])
  }

  /** When Join neither refuses nor gives up. */
  ghost predicate CanJoin(groups: Servers, joining: Servers) {
    && joining != map[]
    && groups.Keys !! joining.Keys
    && (forall g, h | g in joining && h in groups :: !Clash(groups[h], joining[g]))
    && NoSharedServers(joining)
  }

  /** When Leave neither refuses nor gives up. */
  ghost predicate CanLeave(groups: Servers, gids: seq<Tgid>) {
    && gids != []
    && (forall i | 0 <= i < |gids| :: gids[i] in groups)
    && (forall i, j | 0 <= i < j < |gids| :: gids[i] != gids[j])
  }

  datatype Change = Join(servers: Servers) | Leave(gids: seq<Tgid>)

  ghost predicate Allowed(c: Config, ch: Change) {
    match ch
    case Join(servers) => CanJoin(c.groups, servers)
    case Leave(gids) => CanLeave(c.groups, gids)
  }

  function NextGroups(groups: Servers, ch: Change): Servers {
    match ch
    case Join(servers) => groups + servers
    case Leave(gids) => groups - (set g | g in gids)
  }

  /** The configuration after a successful JoinBalance or LeaveBalance. */
  ghost function Apply(c: Config, ch: Change): Config {
    var groups := NextGroups(c.groups, ch);
    Config(c.num + 1, Rebalanced(c.shards, groups.Keys), groups)
  }

  ghost predicate Legal(c: Config, changes: seq<Change>)
    decreases |changes|
  {
    changes == [] || (Allowed(c, changes[0]) && Legal(Apply(c, changes[0]), changes[1..]))
  }

  ghost function Final(c: Config, changes: seq<Change>): Config
    decreases |changes|
  {
    if changes == [] then c else Final(Apply(c, changes[0]), changes[1..])
  }

  /** The verdict of CheckConfig against the groups a test expects. */
  ghost predicate PassesCheck(c: Config, groups: seq<Tgid>) {
    && |groups| == |c.groups|
    && (forall g | g in groups :: g in c.groups)
    && (groups != [] ==> AssignedTo(c.shards, c.groups.Keys))
    && Balanced(c.shards, c.groups.Keys)
  }

  /** What holds of a configuration between changes. */
  ghost predicate Sound(c: Config) {
    && NoSharedServers(c.groups)
    && Balanced(c.shards, c.groups.Keys)
    && (if c.groups == map[] then forall i | 0 <= i < |c.shards| :: c.shards[i] == 0
        else AssignedTo(c.shards, c.groups.Keys))
  }

  lemma ChangeKeepsSound(c: Config, ch: Change)
    requires NoSharedServers(c.groups) && Allowed(c, ch)
    ensures Sound(Apply(c, ch)) && |Apply(c, ch).shards| == |c.shards|
  {
    var groups := NextGroups(c.groups, ch);
    assert NoSharedServers(groups);
    if groups.Keys != {} {
      RebalancedSettles(c.shards, groups.Keys);
    }
    assert groups == map[] <==> groups.Keys == {};
  }

  lemma {:induction false} RunKeepsSound(c: Config, changes: seq<Change>)
    requires Sound(c) && Legal(c, changes)
    ensures Sound(Final(c, changes))
    ensures |Final(c, changes).shards| == |c.shards|
    ensures Final(c, changes).num == c.num + |changes|
    decreases |changes|
  {
    if changes != [] {
      ChangeKeepsSound(c, changes[0]);
      RunKeepsSound(Apply(c, changes[0]), changes[1..]);
    }
  }

  /** Every configuration that joins and leaves can produce passes CheckConfig
      for its own groups, is numbered by the changes made, and puts no server
      in two groups. */
  lemma ReachableConfigs(n: nat, changes: seq<Change>, own: seq<Tgid>)
    requires Legal(Initial(n), changes)
    requires |own| == |Final(Initial(n), changes).groups|
    requires forall g | g in own :: g in Final(Initial(n), changes).groups
    ensures var c := Final(Initial(n), changes);
      && PassesCheck(c, own)
      && c.num == |changes|
      && |c.shards| == n
      && NoSharedServers(c.groups)
  {
    RunKeepsSound(Initial(n), changes);
    var c := Final(Initial(n), changes);
    if own != [] {
      assert own[0] in own;
    }
  }

  /** IsMember answers membership in Groups for every gid if and only if there
      is a group and no more groups than shards. */
  lemma MembershipIsExact(c: Config)
    requires Sound(c) && c.shards != []
    ensures (forall g :: g in c.shards <==> g in c.groups) <==> 1 <= |c.groups| <= |c.shards|
  {
    var G := c.groups.Keys;
    if 1 <= |G| <= |c.shards| {
      BalancedSizes(c.shards, G);
      AtLeastOne(|c.shards|, |G|);
    }
    if forall g :: g in c.shards <==> g in G {
      assert c.shards[0] in G;
      assert G == set g | g in c.shards;
      DistinctAtMost(c.shards);
    }
  }

  lemma AtLeastOne(total: nat, n: nat)
    requires 1 <= n <= total
    ensures total / n >= 1
  {
  }

  lemma {:induction false} DistinctAtMost(s: seq<Tgid>)
    ensures |set g | g in s| <= |s|
  {
    if s != [] {
      DistinctAtMost(s[1..]);
      assert (set g | g in s) == (set g | g in s[1..]) + {s[0]};
    }
  }

  /** A leave moves only shards that the leaving groups owned. */
  lemma LeaveMovesOnlyOrphans(c: Config, gids: seq<Tgid>, i: nat)
    requires Sound(c) && CanLeave(c.groups, gids) && i < |c.shards|
    requires Apply(c, Leave(gids)).shards[i] != c.shards[i]
    ensures c.shards[i] in gids
  {
    var G := NextGroups(c.groups, Leave(gids)).Keys;
    assert gids[0] in c.groups;
    assert c.shards[i] in c.groups.Keys;
    if G != {} {
      SurvivorsDoNotTrade(c.shards, c.groups.Keys, G, i);
      RebalancedSettles(c.shards, G);
      assert Rebalanced(c.shards, G)[i] in c.groups.Keys * G;
    }
    assert c.shards[i] !in G;
  }

  /** A join moves shards only to the joining groups. */
  lemma JoinMovesOnlyToNewcomers(c: Config, servers: Servers, i: nat)
    requires Sound(c) && CanJoin(c.groups, servers) && i < |c.shards|
    requires Apply(c, Join(servers)).shards[i] != c.shards[i]
    ensures Apply(c, Join(servers)).shards[i] in servers
  {
    var G := NextGroups(c.groups, Join(servers)).Keys;
    var g := Pick(servers.Keys);
    assert g in G;
    SurvivorsDoNotTrade(c.shards, c.groups.Keys, G, i);
    RebalancedSettles(c.shards, G);
  }

  /** Joining groups and then removing them disturbs only shards that passed
      through them. */
  lemma JoinThenLeave(c: Config, servers: Servers, gids: seq<Tgid>, i: nat)
    requires Sound(c) && CanJoin(c.groups, servers) && i < |c.shards|
    requires var c' := Apply(c, Join(servers)); CanLeave(c'.groups, gids)
    requires forall g :: g in gids <==> g in servers
    requires Apply(Apply(c, Join(servers)), Leave(gids)).shards[i] != c.shards[i]
    ensures Apply(c, Join(servers)).shards[i] in servers
    ensures Apply(Apply(c, Join(servers)), Leave(gids)).groups == c.groups
  {
    var c' := Apply(c, Join(servers));
    ChangeKeepsSound(c, Join(servers));
    if c'.shards[i] != c.shards[i] {
      JoinMovesOnlyToNewcomers(c, servers, i);
    } else {
      LeaveMovesOnlyOrphans(c', gids, i);
    }
    GroupsReturn(c.groups, servers, gids);
  }

  lemma GroupsReturn(groups: Servers, servers: Servers, gids: seq<Tgid>)
    requires groups.Keys !! servers.Keys && forall g :: g in gids <==> g in servers
    ensures NextGroups(NextGroups(groups, Join(servers)), Leave(gids)) == groups
  {
    forall g ensures g in (set g | g in gids) <==> g in servers.Keys {
      assert g in gids <==> g in servers;
    }
  }
}
