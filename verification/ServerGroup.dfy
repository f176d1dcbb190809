/** The tester's objects: the simulated network's registers, the servers of a
    group, and the group operations that connect, partition and restart them. */
module ServerGroup {
  import C = Connectivity
  import P = Persister
  import opened RpcDurability

  // ---------- The network ----------

  class Net {
    var ends: set<End>
    var enabled: map<End, bool>
    var connections: map<End, Name>
    /** Registered servers; a deleted one is nil, here absent. */
    var servers: map<Name, Inst>
    /** The steps of all shutdowns and starts, in the order they were taken. */
    ghost var steps: seq<Event>

    constructor MakeNetwork()
      ensures ends == {} && Value() == INIT.net && steps == []
    {
      ends, enabled, connections, servers, steps := {}, map[], map[], map[], [];
    }

    ghost method Note(e: Event)
      modifies this`steps
      ensures steps == old(steps) + [e]
    {
      steps := steps + [e];
    }

    function Value(): Network
      reads this
    {
      Network(enabled, connections, servers)
    }

    /** A new end, neither enabled nor connected. An existing name is fatal. */
    method MakeEnd(e: End)
      requires e !in ends
      modifies this
      ensures ends == old(ends) + {e} && servers == old(servers) && steps == old(steps)
      ensures enabled == old(enabled)[e := false] && connections == old(connections) - {e}
    {
      ends := ends + {e};
      enabled := enabled[e := false];
      connections := connections - {e};
    }

    method Connect(e: End, n: Name)
      modifies this
      ensures Value() == old(Value()).(connections := old(connections)[e := n]) && ends == old(ends)
      ensures steps == old(steps)
    {
      connections := connections[e := n];
    }

    method Enable(e: End, on: bool)
      modifies this
      ensures Value() == old(Value()).(enabled := old(enabled)[e := on]) && ends == old(ends)
      ensures steps == old(steps)
    {
      enabled := enabled[e := on];
    }

    method AddServer(n: Name, i: Inst)
      modifies this
      ensures Value() == old(Value()).(servers := old(servers)[n := i]) && ends == old(ends)
      ensures steps == old(steps) + [Event.Register(n)]
    {
      servers := servers[n := i];
      Note(Event.Register(n));
    }

    method DeleteServer(n: Name)
      modifies this
      ensures Value() == old(Value()).(servers := old(servers) - {n}) && ends == old(ends)
      ensures steps == old(steps) + [Event.Delete(n)]
    {
      servers := servers - {n};
      Note(Event.Delete(n));
    }

    /** A request proceeds when all three answers are there. */
    method ReadEndInfo(e: End) returns (on: bool, n: Option<Name>, i: Option<Inst>)
      ensures on <==> e in enabled && enabled[e]
      ensures n == if e in connections then Some(connections[e]) else None
      ensures i == if n.Some? && n.value in servers then Some(servers[n.value]) else None
      ensures (if on && n.Some? && i.Some? then Some((n.value, i.value)) else None) == ReadEndnameInfo(Value(), e)
    {
      on := e in enabled && enabled[e];
      n := if e in connections then Some(connections[e]) else None;
      i := None;
      if n.Some? {
        i := if n.value in servers then Some(servers[n.value]) else None;
      }
    }

    method ServerIsDead(e: End, n: Name, i: Inst) returns (dead: bool)
      ensures dead <==> !(e in enabled && enabled[e]) || n !in servers || servers[n] != i
      ensures dead == IsServerDead(Value(), e, n, i)
    {
      if !(e in enabled && enabled[e]) || !(n in servers && servers[n] == i) {
        return true;
      }
      return false;
    }
  }

  // ---------- A server of a group ----------

  class Server {
    const net: Net
    const endNames: seq<End>
    var saved: P.Persister?

    /** One fresh end to every server of the group. The random names are a
        parameter; a clash with an existing name would be fatal. */
    constructor MakeServer(net: Net, gid: int, names: seq<End>)
      requires Distinct(names) && forall k | 0 <= k < |names| :: names[k] !in net.ends
      modifies net
      ensures this.net == net && endNames == names && saved == null
      ensures forall e :: e in net.ends <==> e in old(net.ends) || e in names
      ensures net.servers == old(net.servers) && net.steps == old(net.steps)
      ensures forall e :: On(net.enabled, e) <==> e !in names && On(old(net.enabled), e)
      ensures forall k | 0 <= k < |names| :: names[k] in net.connections && net.connections[names[k]] == ServerName(gid, k)
    {
      this.net := net;
      this.endNames := names;
      saved := null;
      new;
      for j := 0 to |names|
        invariant saved == null
        invariant forall e :: e in net.ends <==> e in old(net.ends) || e in names[..j]
        invariant net.servers == old(net.servers) && net.steps == old(net.steps)
        invariant forall e :: On(net.enabled, e) <==> e !in names[..j] && On(old(net.enabled), e)
        invariant forall k | 0 <= k < j :: names[k] in net.connections && net.connections[names[k]] == ServerName(gid, k)
      {
        var e := names[j];
        assert e !in names[..j];
        net.MakeEnd(e);
        net.Connect(e, ServerName(gid, j));
        assert names[..j + 1] == names[..j] + [e];
      }
      assert names[..|names|] == names;
    }

    /** A successor with fresh ends and a copy of the persister. */
    method StartServer(gid: int, names: seq<End>, ghost n: Name) returns (srv: Server)
      requires Distinct(names) && forall k | 0 <= k < |names| :: names[k] !in net.ends
      requires saved != null ==> saved.Valid()
      modifies net
      ensures fresh(srv) && srv.net == net && srv.endNames == names
      ensures srv.saved != null && fresh(srv.saved) && srv.saved.Valid()
      ensures srv.saved.history == if saved == null then [] else saved.history
      ensures forall e :: e in net.ends <==> e in old(net.ends) || e in names
      ensures net.servers == old(net.servers) && net.steps == old(net.steps) + [Event.Boot(n)]
      ensures forall e :: On(net.enabled, e) <==> e !in names && On(old(net.enabled), e)
    {
      srv := new Server.MakeServer(net, gid, names);
      if saved != null {
        srv.saved := saved.Copy();
      } else {
        srv.saved := new P.Persister.MakePersister();
      }
      net.Note(Event.Boot(n));
    }

    /** Enable the ends to the listed servers that are connected. */
    method Connect(connected: seq<bool>, to: seq<nat>) returns (ghost hit: set<End>)
      requires |connected| == |endNames| && C.InRange(to, |endNames|)
      modifies net
      ensures forall e :: e in hit <==> exists b | b in to && connected[b] :: endNames[b] == e
      ensures Enables(old(net.enabled), net.enabled, hit)
      ensures net.ends == old(net.ends) && net.servers == old(net.servers) && net.steps == old(net.steps)
    {
      hit := {};
      for j := 0 to |to|
        invariant forall e :: e in hit <==> exists b | b in to[..j] && connected[b] :: endNames[b] == e
        invariant Enables(old(net.enabled), net.enabled, hit)
        invariant net.ends == old(net.ends) && net.servers == old(net.servers) && net.steps == old(net.steps)
      {
        assert to[..j + 1] == to[..j] + [to[j]];
        if connected[to[j]] {
          net.Enable(endNames[to[j]], true);
          hit := hit + {endNames[to[j]]};
        }
      }
      assert to[..|to|] == to;
    }

    /** Disable the ends to the listed servers. */
    method Disconnect(from: seq<nat>) returns (ghost hit: set<End>)
      requires C.InRange(from, |endNames|)
      modifies net
      ensures forall e :: e in hit <==> exists b | b in from && 0 <= b < |endNames| :: endNames[b] == e
      ensures Disables(old(net.enabled), net.enabled, hit)
      ensures net.ends == old(net.ends) && net.servers == old(net.servers) && net.steps == old(net.steps)
    {
      hit := {};
      for j := 0 to |from|
        invariant forall e :: e in hit <==> exists b | b in from[..j] && 0 <= b < |endNames| :: endNames[b] == e
        invariant Disables(old(net.enabled), net.enabled, hit)
        invariant net.ends == old(net.ends) && net.servers == old(net.servers) && net.steps == old(net.steps)
      {
        assert from[..j + 1] == from[..j] + [from[j]];
        net.Enable(endNames[from[j]], false);
        hit := hit + {endNames[from[j]]};
      }
      assert from[..|from|] == from;
    }

    /** The persister is superseded by a copy, whatever the old instance may
        still save to it. */
    method Shutdown(ghost n: Name)
      requires saved != null ==> saved.Valid()
      modifies this, net`steps
      ensures net.steps == old(net.steps) + [Event.CopyOnShutdown(n)]
      ensures (saved == null) == (old(saved) == null)
      ensures saved != null ==> fresh(saved) && saved.Valid() && saved.history == old(saved.history)
    {
      if saved != null {
        saved := saved.Copy();
      }
      net.Note(Event.CopyOnShutdown(n));
    }
  }

  predicate On(enabled: map<End, bool>, e: End) {
    e in enabled && enabled[e]
  }

  ghost predicate Distinct(names: seq<End>) {
    forall i, j | 0 <= i < j < |names| :: names[i] != names[j]
  }

  // ---------- A group ----------

  /** The connectivity matrix of servers with these end names. */
  ghost function MatrixOf(connected: seq<bool>, names: seq<seq<End>>, enabled: map<End, bool>): C.Matrix {
    C.Build(connected, (a, b) => 0 <= a < |names| && 0 <= b < |names[a]| && On(enabled, names[a][b]))
  }

  ghost predicate DistinctNames(names: seq<seq<End>>, n: nat) {
    && |names| == n && (forall a | 0 <= a < n :: |names[a]| == n)
    && forall a, b, c, d | 0 <= a < n && 0 <= b < n && 0 <= c < n && 0 <= d < n && names[a][b] == names[c][d] :: a == c && b == d
  }

  /** Exactly the ends in hit have been enabled. */
  ghost predicate Enables(before: map<End, bool>, after: map<End, bool>, hit: set<End>) {
    forall e :: On(after, e) <==> On(before, e) || e in hit
  }

  ghost predicate Disables(before: map<End, bool>, after: map<End, bool>, hit: set<End>) {
    forall e :: On(after, e) <==> On(before, e) && e !in hit
  }

  /** The ends from server i to the servers in `to`, and from those to i. */
  ghost predicate EndsAt(names: seq<seq<End>>, n: nat, i: nat, to: set<nat>, hit: set<End>)
    requires DistinctNames(names, n) && i < n && forall b | b in to :: b < n
  {
    forall e :: e in hit <==> exists b | b in to :: names[i][b] == e || names[b][i] == e
  }

  lemma HitPairs(names: seq<seq<End>>, n: nat, i: nat, to: set<nat>, hit: set<End>, a: nat, b: nat)
    requires DistinctNames(names, n) && i < n && forall b | b in to :: b < n
    requires EndsAt(names, n, i, to, hit) && a < n && b < n
    ensures names[a][b] in hit <==> (a == i && b in to) || (b == i && a in to)
  {
  }

  lemma ConnectView(c: seq<bool>, names: seq<seq<End>>, before: map<End, bool>, after: map<End, bool>,
                    i: nat, to: seq<nat>, live: set<nat>, hit: set<End>)
    requires DistinctNames(names, |c|) && i < |c| && C.InRange(to, |c|)
    requires forall b :: b in live <==> b in to && b < |c| && c[i := true][b]
    requires EndsAt(names, |c|, i, live, hit) && Enables(before, after, hit)
    ensures MatrixOf(c[i := true], names, after) == C.Connect(MatrixOf(c, names, before), i, to)
  {
    var m, m' := MatrixOf(c[i := true], names, after), C.Connect(MatrixOf(c, names, before), i, to);
    forall a, b | 0 <= a < |c| && 0 <= b < |c| ensures C.On(m, a, b) <==> C.On(m', a, b) {
      HitPairs(names, |c|, i, live, hit, a, b);
    }
    C.SameMatrix(m, m', |c|);
  }

  lemma DisconnectView(c: seq<bool>, names: seq<seq<End>>, before: map<End, bool>, after: map<End, bool>,
                       i: nat, from: seq<nat>, listed: set<nat>, hit: set<End>)
    requires DistinctNames(names, |c|) && i < |c| && C.InRange(from, |c|)
    requires forall b :: b in listed <==> b in from && b < |c|
    requires EndsAt(names, |c|, i, listed, hit) && Disables(before, after, hit)
    ensures MatrixOf(c[i := false], names, after) == C.Disconnect(MatrixOf(c, names, before), i, from)
  {
    var m, m' := MatrixOf(c[i := false], names, after), C.Disconnect(MatrixOf(c, names, before), i, from);
    forall a, b | 0 <= a < |c| && 0 <= b < |c| ensures C.On(m, a, b) <==> C.On(m', a, b) {
      HitPairs(names, |c|, i, listed, hit, a, b);
    }
    C.SameMatrix(m, m', |c|);
  }

  /** Replacing server i's ends by fresh, disabled ones. */
  lemma RestartView(c: seq<bool>, names: seq<seq<End>>, before: map<End, bool>, after: map<End, bool>, i: nat, newNames: seq<End>)
    requires DistinctNames(names, |c|) && i < |c| && |newNames| == |c| && Distinct(newNames)
    requires forall a, b | 0 <= a < |c| && 0 <= b < |c| :: names[a][b] !in newNames
    requires forall e :: On(after, e) <==> e !in newNames && On(before, e)
    ensures DistinctNames(names[i := newNames], |c|)
    ensures MatrixOf(c, names[i := newNames], after) == C.Restart(MatrixOf(c, names, before), i)
  {
    var names' := names[i := newNames];
    FreshRow(names, |c|, i, newNames);
    var m, m' := MatrixOf(c, names', after), C.Restart(MatrixOf(c, names, before), i);
    forall a, b | 0 <= a < |c| && 0 <= b < |c| ensures C.On(m, a, b) <==> C.On(m', a, b) {
      if a == i {
        var e := newNames[b];
        assert e in newNames;
      }
    }
    C.SameMatrix(m, m', |c|);
  }

  lemma FreshRow(names: seq<seq<End>>, n: nat, i: nat, newNames: seq<End>)
    requires DistinctNames(names, n) && i < n && |newNames| == n && Distinct(newNames)
    requires forall a, b | 0 <= a < n && 0 <= b < n :: names[a][b] !in newNames
    ensures DistinctNames(names[i := newNames], n)
  {
    var names' := names[i := newNames];
    forall a, b, c, d | 0 <= a < n && 0 <= b < n && 0 <= c < n && 0 <= d < n && names'[a][b] == names'[c][d]
      ensures a == c && b == d
    {
      var e, f := names'[a][b], names'[c][d];
      assert a == i ==> e in newNames;
      assert c == i ==> f in newNames;
    }
  }

  lemma RowDistinct(names: seq<seq<End>>, n: nat, i: nat)
    requires DistinctNames(names, n) && i < n
    ensures Distinct(names[i])
    ensures forall a, e | i < a < n && e in names[a] :: e !in names[i]
  {
  }

  class ServerGrp {
    const net: Net
    const gid: int
    var srvs: seq<Server>
    var connected: seq<bool>

    /** n servers, none connected, with one row of random end names each. */
    constructor MakeSrvGrp(net: Net, gid: int, n: nat, names: seq<seq<End>>)
      requires DistinctNames(names, n)
      requires forall a, b | 0 <= a < n && 0 <= b < n :: names[a][b] !in net.ends
      requires forall e | e !in net.ends :: !On(net.enabled, e)
      modifies net
      ensures this.net == net && this.gid == gid && Valid() && |srvs| == n && View() == C.Initial(n)
      ensures forall a | 0 <= a < n :: srvs[a].endNames == names[a] && !connected[a]
      ensures forall a, b | 0 <= a < n && 0 <= b < n :: !On(net.enabled, names[a][b])
      ensures net.servers == old(net.servers) && net.steps == old(net.steps)
    {
      this.net, this.gid := net, gid;
      srvs, connected := [], seq(n, _ => false);
      new;
      ghost var before := net.enabled;
      for i := 0 to n
        invariant |srvs| == i && connected == seq(n, _ => false) && net.servers == old(net.servers) && net.steps == old(net.steps)
        invariant forall a | 0 <= a < i :: srvs[a].net == net && srvs[a].endNames == names[a] && forall e | e in names[a] :: e in net.ends
        invariant forall a, b | i <= a < n && 0 <= b < n :: names[a][b] !in net.ends
        invariant forall e :: On(net.enabled, e) ==> On(before, e)
      {
        RowDistinct(names, n, i);
        var srv := new Server.MakeServer(net, gid, names[i]);
        srvs := srvs + [srv];
      }
      forall a, b | 0 <= a < n && 0 <= b < n ensures names[a][b] in net.ends && !On(net.enabled, names[a][b]) {
        var e := names[a][b];
        assert e in names[a];
      }
      assert Names() == names;
      C.SameMatrix(View(), C.Initial(n), n);
    }

    ghost function Names(): (names: seq<seq<End>>)
      reads this
      ensures |names| == |srvs| && forall a | 0 <= a < |srvs| :: names[a] == srvs[a].endNames
    {
      seq(|srvs|, a requires 0 <= a < |srvs| reads this => srvs[a].endNames)
    }

    ghost predicate Valid()
      reads this, net
    {
      && |connected| == |srvs|
      && DistinctNames(Names(), |srvs|)
      && (forall a | 0 <= a < |srvs| :: srvs[a].net == net)
      && forall a, b | 0 <= a < |srvs| && 0 <= b < |srvs[a].endNames| :: srvs[a].endNames[b] in net.ends
    }

    ghost function View(): C.Matrix
      reads this, net
    {
      MatrixOf(connected, Names(), net.enabled)
    }

    method IsConnected(i: nat) returns (b: bool)
      requires i < |connected|
      ensures b == connected[i]
    {
      b := connected[i];
    }

    /** Attach server i to the listed servers that are connected. */
    method Connect(i: nat, to: seq<nat>)
      requires Valid() && i < |srvs| && C.InRange(to, |srvs|)
      modifies this`connected, net
      ensures Valid() && View() == C.Connect(old(View()), i, to)
      ensures net.ends == old(net.ends) && net.servers == old(net.servers) && net.steps == old(net.steps)
    {
      ghost var names, before := Names(), net.enabled;
      connected := connected[i := true];
      ghost var out := srvs[i].Connect(connected, to);
      ghost var in_ := ConnectIncoming(i, to);
      ghost var live := set b | b in to && connected[b];
      assert Enables(before, net.enabled, out + in_);
      ConnectView(old(connected), names, before, net.enabled, i, to, live, out + in_);
      assert Names() == names;
    }

    method ConnectIncoming(i: nat, to: seq<nat>) returns (ghost hit: set<End>)
      requires Valid() && i < |srvs| && C.InRange(to, |srvs|)
      modifies net
      ensures forall e :: e in hit <==> exists b | b in to && connected[b] :: srvs[b].endNames[i] == e
      ensures Enables(old(net.enabled), net.enabled, hit)
      ensures net.ends == old(net.ends) && net.servers == old(net.servers) && net.steps == old(net.steps)
    {
      hit := {};
      for j := 0 to |to|
        invariant forall e :: e in hit <==> exists b | b in to[..j] && connected[b] :: srvs[b].endNames[i] == e
        invariant Enables(old(net.enabled), net.enabled, hit)
        invariant net.ends == old(net.ends) && net.servers == old(net.servers) && net.steps == old(net.steps)
      {
        assert to[..j + 1] == to[..j] + [to[j]];
        var on := IsConnected(to[j]);
        if on {
          net.Enable(srvs[to[j]].endNames[i], true);
          hit := hit + {srvs[to[j]].endNames[i]};
        }
      }
      assert to[..|to|] == to;
    }

    /** Detach server i from the listed servers. */
    method Disconnect(i: nat, from: seq<nat>)
      requires Valid() && i < |srvs| && C.InRange(from, |srvs|)
      modifies this`connected, net
      ensures Valid() && View() == C.Disconnect(old(View()), i, from)
      ensures net.ends == old(net.ends) && net.servers == old(net.servers) && net.steps == old(net.steps)
    {
      ghost var names := Names();
      connected := connected[i := false];
      ghost var hit := srvs[i].Disconnect(from);
      for j := 0 to |from|
        invariant connected == old(connected)[i := false] && Names() == names
        invariant forall e :: e in hit <==>
          (exists b | b in from && 0 <= b < |names| :: names[i][b] == e) ||
          (exists b | b in from[..j] && 0 <= b < |names| :: names[b][i] == e)
        invariant Disables(old(net.enabled), net.enabled, hit)
        invariant net.ends == old(net.ends) && net.servers == old(net.servers) && net.steps == old(net.steps)
      {
        assert from[..j + 1] == from[..j] + [from[j]];
        net.Enable(srvs[from[j]].endNames[i], false);
        hit := hit + {srvs[from[j]].endNames[i]};
      }
      assert from[..|from|] == from;
      ghost var listed := set b | b in from;
      DisconnectView(old(connected), names, old(net.enabled), net.enabled, i, from, listed, hit);
    }

    method ConnectOne(i: nat)
      requires Valid() && i < |srvs|
      modifies this`connected, net
      ensures Valid() && View() == C.Do(old(View()), C.ConnectOne(i))
    {
      Connect(i, C.All(|srvs|));
    }

    method ConnectAll()
      requires Valid()
      modifies this`connected, net
      ensures Valid() && View() == C.Do(old(View()), C.ConnectAll)
    {
      ghost var m := View();
      for i := 0 to |srvs|
        invariant Valid() && |View().connected| == |srvs|
        invariant C.ConnectRest(View(), i) == C.ConnectRest(m, 0)
      {
        ConnectOne(i);
      }
    }

    method DisconnectAll(i: nat)
      requires Valid() && i < |srvs|
      modifies this`connected, net
      ensures Valid() && View() == C.Do(old(View()), C.DisconnectAll(i))
    {
      Disconnect(i, C.All(|srvs|));
    }

    /** Cut the two sides off from each other and connect each within itself. */
    method Partition(p1: seq<nat>, p2: seq<nat>)
      requires Valid() && C.InRange(p1, |srvs|) && C.InRange(p2, |srvs|)
      modifies this`connected, net
      ensures Valid() && View() == C.Partition(old(View()), p1, p2)
    {
      Separate(p1, p2);
      Separate(p2, p1);
    }

    method Separate(side: seq<nat>, other: seq<nat>)
      requires Valid() && C.InRange(side, |srvs|) && C.InRange(other, |srvs|)
      modifies this`connected, net
      ensures Valid() && View() == C.Split(old(View()), side, other, 0)
    {
      ghost var m := View();
      for k := 0 to |side|
        invariant Valid() && |View().connected| == |srvs|
        invariant C.Split(View(), side, other, k) == C.Split(m, side, other, 0)
      {
        Disconnect(side[k], other);
        Connect(side[k], side);
      }
    }

    /** Disconnect the server, delete it from the network, and only then
        supersede its persister. */
    method ShutdownServer(i: nat)
      requires Valid() && i < |srvs| && (srvs[i].saved != null ==> srvs[i].saved.Valid())
      modifies this`connected, net, srvs[i]
      ensures Valid() && View() == C.Do(old(View()), C.ShutdownServer(i))
      ensures net.servers == old(net.servers) - {ServerName(gid, i)}
      ensures net.steps == old(net.steps) + ShutdownSteps(ServerName(gid, i))
      ensures srvs[i].saved != null <==> old(srvs[i].saved) != null
      ensures srvs[i].saved != null ==>
        fresh(srvs[i].saved) && srvs[i].saved.Valid() && srvs[i].saved.history == old(srvs[i].saved.history)
    {
      Disconnect(i, C.All(|srvs|));
      net.DeleteServer(ServerName(gid, i));
      srvs[i].Shutdown(ServerName(gid, i));
    }

    /** Make a new server with fresh ends and a copy of the persister, then
        register its instance. */
    method StartServer(i: nat, names: seq<End>, inst: Inst)
      requires Valid() && i < |srvs| && (srvs[i].saved != null ==> srvs[i].saved.Valid())
      requires |names| == |srvs| && Distinct(names) && forall k | 0 <= k < |names| :: names[k] !in net.ends
      modifies this`srvs, net
      ensures Valid() && |srvs| == |old(srvs)| && View() == C.Do(old(View()), C.StartServer(i))
      ensures net.servers == old(net.servers)[ServerName(gid, i) := inst]
      ensures net.steps == old(net.steps) + StartSteps(ServerName(gid, i))
      ensures srvs[i].endNames == names && forall e :: On(net.enabled, e) <==> e !in names && On(old(net.enabled), e)
      ensures srvs[i].saved != null && fresh(srvs[i].saved) && srvs[i].saved.Valid()
      ensures srvs[i].saved.history == if old(srvs[i].saved) == null then [] else old(srvs[i].saved.history)
    {
      ghost var before, rows := net.enabled, Names();
      forall a, b | 0 <= a < |srvs| && 0 <= b < |srvs| ensures rows[a][b] !in names {
        assert srvs[a].endNames[b] in net.ends;
      }
      var srv := srvs[i].StartServer(gid, names, ServerName(gid, i));
      srvs := srvs[i := srv];
      assert Names() == rows[i := names];
      RestartView(connected, rows, before, net.enabled, i, names);
      net.AddServer(ServerName(gid, i), inst);
    }
  }
}
