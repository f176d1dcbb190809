/** The tester's objects: each server's applier and the cross-server check,
    updating their logs in place. */
module LogChecker {
  import opened LogAgreement

  /** A snapshot as bytes: nil, undecodable, or an encoded snapshot. */
  datatype Bytes = NilBytes | Garbage | Encoded(snap: Snapshot)

  /** A message on the apply channel. */
  datatype ApplyMsg = CommandMsg(cmd: Any, index: int) | SnapshotMsg(bytes: Bytes, snapIndex: int) | OtherMsg

  class Rfsrv {
    var logs: Log
    var lastApplied: int

    constructor ()
      ensures Value() == Server(map[], 0)
    {
      logs, lastApplied := map[], 0;
    }

    function Value(): Server
      reads this
    {
      Server(logs, lastApplied)
    }

    /** Replace the log by the snapshot's; index -1 skips the index check. */
    method IngestSnap(bytes: Bytes, index: int) returns (ok: bool)
      modifies this
      ensures ok == (bytes.Encoded? && (index == -1 || index == bytes.snap.last))
      ensures ok ==> Value() == Restored(bytes.snap)
      ensures ok ==> lastApplied == bytes.snap.last && (forall k :: k in logs <==> 0 <= k < |bytes.snap.xlog|)
      ensures ok ==> forall k | k in logs :: logs[k] == bytes.snap.xlog[k]
      ensures !ok ==> Value() == old(Value())
    {
      if bytes.NilBytes? {
        return false;
      }
      if bytes.Garbage? {
        return false;
      }
      var xlog: seq<Any> := bytes.snap.xlog;
      if index != -1 && index != bytes.snap.last {
        return false;
      }
      logs := map[];
      for j := 0 to |xlog|
        invariant forall k :: k in logs <==> 0 <= k < j
        invariant forall k | 0 <= k < j :: logs[k] == xlog[k]
      {
        logs := logs[j := xlog[j]];
      }
      assert logs == Restored(bytes.snap).logs;
      lastApplied := bytes.snap.last;
      ok := true;
    }

    /** Collect the log up to index into a snapshot. */
    method Collect(index: int) returns (snap: Snapshot)
      requires index == lastApplied
      ensures snap == Taken(Value())
      ensures snap.last == index && |snap.xlog| == (if index < 0 then 0 else index + 1)
      ensures forall k | 0 <= k < |snap.xlog| :: snap.xlog[k] == if k in logs then logs[k] else Nil
    {
      var xlog: seq<Any> := [];
      var j := 0;
      while j <= index
        invariant 0 <= j && (j == 0 || j <= index + 1)
        invariant |xlog| == j && forall k | 0 <= k < j :: xlog[k] == Entry(logs, k)
      {
        xlog := xlog + [Entry(logs, j)];
        j := j + 1;
      }
      snap := Snapshot(index, xlog);
    }
  }

  class Test {
    const srvs: seq<Rfsrv>
    var maxIndex: int

    ghost predicate Valid() {
      forall i, j | 0 <= i < j < |srvs| :: srvs[i] != srvs[j]
    }

    ghost function Values(): seq<Server>
      reads srvs
    {
      seq(|srvs|, i requires 0 <= i < |srvs| reads srvs => srvs[i].Value())
    }

    /** The tester between messages, with the snapshots taken so far. */
    ghost function Value(taken: set<Snapshot>): System
      reads this, srvs
    {
      System(Values(), Free, taken, maxIndex)
    }

    constructor (srvs: seq<Rfsrv>)
      requires forall i, j | 0 <= i < j < |srvs| :: srvs[i] != srvs[j]
      ensures Valid() && this.srvs == srvs && maxIndex == 0
    {
      this.srvs, maxIndex := srvs, 0;
    }

    /** Compare a command with every server's log, then record it at server i. */
    method CheckLogs(i: nat, index: int, v: Any) returns (err: bool, prevok: bool)
      requires Valid() && i < |srvs|
      modifies srvs[i], this`maxIndex
      ensures srvs[i].lastApplied == old(srvs[i].lastApplied)
      ensures err <==> exists j | 0 <= j < |srvs| :: index in old(srvs[j].logs) && old(srvs[j].logs)[index] != v
      ensures prevok <==> index - 1 in old(srvs[i].logs)
      ensures srvs[i].logs == old(srvs[i].logs)[index := v]
      ensures maxIndex == if index > old(maxIndex) then index else old(maxIndex)
    {
      err := false;
      for j := 0 to |srvs|
        invariant err <==> exists k: int | 0 <= k < j :: index in srvs[k].logs && srvs[k].logs[index] != v
      {
        if index in srvs[j].logs && srvs[j].logs[index] != v {
          err := true;
        }
      }
      prevok := index - 1 in srvs[i].logs;
      srvs[i].logs := srvs[i].logs[index := v];
      if index > maxIndex {
        maxIndex := index;
      }
    }

    /** One command through applierSnap, without interruption. It reports no
        error exactly when it is deliverable, and then records it and takes the
        snapshot that is due. */
    method ApplyCommand(i: nat, v: Any, index: int, ghost taken: set<Snapshot>)
        returns (err: bool, snap: seq<Snapshot>)
      requires Valid() && i < |srvs|
      modifies srvs[i], this`maxIndex
      ensures !err <==> old(Deliverable(Value(taken), i, index, v))
      ensures !err ==> Value(taken) == Delivered(old(Value(taken)), i, index, v)
      ensures srvs[i].lastApplied == index
      ensures !err ==> index == old(srvs[i].lastApplied) + 1 && srvs[i].logs == old(srvs[i].logs)[index := v]
      ensures !err ==> forall j | 0 <= j < |srvs| && index in old(srvs[j].logs) :: old(srvs[j].logs)[index] == v
      ensures snap != [] <==> (index + 1) % 10 == 0
      ensures !err ==> snap == if SnapshotDue(index) then [Taken(srvs[i].Value())] else []
    {
      ghost var s := Value(taken);
      assert forall j | 0 <= j < |srvs| :: s.servers[j].logs == srvs[j].logs;
      err := index != srvs[i].lastApplied + 1;
      if !err {
        var prevok: bool;
        err, prevok := CheckLogs(i, index, v);
        if index > 1 && !prevok {
          err := true;
        }
      }
      srvs[i].lastApplied := index;
      snap := [];
      if (index + 1) % SNAPSHOT_INTERVAL == 0 {
        var taken1 := srvs[i].Collect(index);
        snap := [taken1];
      }
      assert !err ==> Values() == Delivered(s, i, index, v).servers;
    }

    /** Any message through applierSnap; messages of other kinds are ignored. */
    method Apply(i: nat, m: ApplyMsg, ghost taken: set<Snapshot>) returns (err: bool, snap: seq<Snapshot>)
      requires Valid() && i < |srvs|
      modifies srvs[i], this`maxIndex
      ensures m.CommandMsg? ==> (!err <==> old(Deliverable(Value(taken), i, m.index, m.cmd)))
      ensures m.CommandMsg? && !err ==>
        && Value(taken) == Delivered(old(Value(taken)), i, m.index, m.cmd)
        && snap == if SnapshotDue(m.index) then [Taken(srvs[i].Value())] else []
      ensures m.SnapshotMsg? ==>
        (!err <==> m.bytes.Encoded? && (m.snapIndex == -1 || m.snapIndex == m.bytes.snap.last)) && snap == []
      ensures m.SnapshotMsg? && !err ==>
        && Unreported(old(Value(taken)), Ingest(i, m.bytes.snap, m.snapIndex))
        && Value(taken) == Do(old(Value(taken)), Ingest(i, m.bytes.snap, m.snapIndex))
      ensures m.OtherMsg? ==> !err && Value(taken) == old(Value(taken))
    {
      err, snap := false, [];
      ghost var s := Value(taken);
      match m
      case CommandMsg(cmd, index) =>
        err, snap := ApplyCommand(i, cmd, index, taken);
      case SnapshotMsg(bytes, snapIndex) =>
        var ok := srvs[i].IngestSnap(bytes, snapIndex);
        err := !ok;
        assert ok ==> Values() == s.servers[i := Restored(bytes.snap)];
      case OtherMsg =>
    }

    /** How many servers hold an entry at index, and which; ok is false when
        they do not all hold the same one. */
    method NCommitted(index: int) returns (ok: bool, count: nat, cmd: Any)
      ensures ok <==> OneEntry(Values(), index)
      ensures ok <==> forall j, k | 0 <= j < |srvs| && 0 <= k < |srvs| && index in srvs[j].logs && index in srvs[k].logs ::
        srvs[j].logs[index] == srvs[k].logs[index]
      ensures ok ==> count == |set j | 0 <= j < |srvs| && index in srvs[j].logs|
      ensures ok ==> forall j | 0 <= j < |srvs| && index in srvs[j].logs :: srvs[j].logs[index] == cmd
    {
      ok, count, cmd := CountHolders(index);
      ghost var vs := Values();
      assert forall j | 0 <= j < |srvs| :: vs[j].logs == srvs[j].logs;
      OneEntryMeans(vs, index);
      HoldersCount(vs, index);
      assert (set j | 0 <= j < |srvs| && index in srvs[j].logs) == HolderSet(vs, index);
    }

    /** The loop over the servers. */
    method CountHolders(index: int) returns (ok: bool, count: nat, cmd: Any)
      ensures ok <==> OneEntry(Values(), index)
      ensures ok ==> count == Holders(Values(), index)
      ensures ok ==> forall j | 0 <= j < |srvs| && index in srvs[j].logs :: srvs[j].logs[index] == cmd
    {
      ghost var vs := Values();
      assert forall j | 0 <= j < |srvs| :: vs[j].logs == srvs[j].logs;
      count, cmd := 0, Nil;
      for j := 0 to |srvs|
        invariant count == Holders(vs[..j], index)
        invariant forall k | 0 <= k < j && index in vs[k].logs :: vs[k].logs[index] == cmd
        invariant count > 0 ==> exists k | 0 <= k < j :: Holds(vs[k], index, cmd)
      {
        assert vs[..j + 1][..j] == vs[..j];
        if index in srvs[j].logs {
          var cmd1 := srvs[j].logs[index];
          if count > 0 && cmd != cmd1 {
            assert Holds(vs[j], index, cmd1);
            return false, count, cmd;
          }
          NoHolders(vs[..j], index);
          count := count + 1;
          cmd := cmd1;
          assert Holds(vs[j], index, cmd);
        }
      }
      assert vs[..|srvs|] == vs;
      ok := true;
    }
  }

  /** No two servers hold different entries at index. */
  ghost predicate OneEntry(servers: seq<Server>, index: int) {
    forall j, k, v, w | 0 <= j < |servers| && 0 <= k < |servers| && Holds(servers[j], index, v) && Holds(servers[k], index, w) ::
      v == w
  }

  function Holders(servers: seq<Server>, index: int): nat {
    if servers == [] then 0
    else Holders(servers[..|servers| - 1], index) + if index in servers[|servers| - 1].logs then 1 else 0
  }

  function HolderSet(servers: seq<Server>, index: int): set<int> {
    set j | 0 <= j < |servers| && index in servers[j].logs
  }

  lemma {:induction false} HoldersCount(servers: seq<Server>, index: int)
    ensures Holders(servers, index) == |set j | 0 <= j < |servers| && index in servers[j].logs|
  {
    if servers != [] {
      var n := |servers| - 1;
      HoldersCount(servers[..n], index);
      assert HolderSet(servers, index) == HolderSet(servers[..n], index) + if index in servers[n].logs then {n} else {};
    }
  }

  lemma OneEntryMeans(servers: seq<Server>, index: int)
    ensures OneEntry(servers, index) <==>
      forall j, k | 0 <= j < |servers| && 0 <= k < |servers| && index in servers[j].logs && index in servers[k].logs ::
        servers[j].logs[index] == servers[k].logs[index]
  {
    if OneEntry(servers, index) {
      forall j, k | 0 <= j < |servers| && 0 <= k < |servers| && index in servers[j].logs && index in servers[k].logs
        ensures servers[j].logs[index] == servers[k].logs[index]
      {
        assert Holds(servers[j], index, servers[j].logs[index]) && Holds(servers[k], index, servers[k].logs[index]);
      }
    }
  }

  lemma {:induction false} NoHolders(servers: seq<Server>, index: int)
    ensures Holders(servers, index) == 0 ==> forall j | 0 <= j < |servers| :: index !in servers[j].logs
  {
    if servers != [] {
      NoHolders(servers[..|servers| - 1], index);
    }
  }

  /** After any run without a reported error, NCommitted cannot fail: neither at
      once, nor when snapshots are ingested between its reads of the logs. */
  lemma NCommittedNeverFails(n: nat, init: System, events: seq<Event>, s: System, index: int)
    requires Init(init, n) && Runs(init, events, s)
    ensures OneEntry(s.servers, index)
    ensures !Mismatch(s)
  {
    ErrorFreeRunsAgree(n, init, events, s);
    RunKeepsInv(init, events, s, n);
    CountsAgree(s, n);
  }
}
