/** The checker of replicated logs: what the servers' copies of the committed
    entries look like, how the applier checks and records one message, and why
    a run without a reported error means agreement. Raft itself is arbitrary. */
module LogAgreement {
  datatype Any = Nil | Command(id: int)

  type Log = map<int, Any>

  /** A server's copy of its committed entries. */
  datatype Server = Server(logs: Log, lastApplied: int)

  datatype Snapshot = Snapshot(last: int, xlog: seq<Any>)

  const SNAPSHOT_INTERVAL := 10

  /** The log already holds a different command at this index. */
  predicate Disagrees(log: Log, index: int, v: Any) {
    index in log && log[index] != v
  }

  function Recorded(s: Server, index: int, v: Any): Server {
    Server(s.logs[index := v], index)
  }

  /** A server that has ingested a snapshot: its old log is gone. */
  function Restored(snap: Snapshot): Server {
    Server(map j | 0 <= j < |snap.xlog| :: snap.xlog[j], snap.last)
  }

  function Entry(log: Log, j: int): Any {
    if j in log then log[j] else Nil
  }

  /** Entries 0..last in order; what is missing is stored as nil. */
  function Taken(s: Server): Snapshot {
    var len := if s.lastApplied < 0 then 0 else s.lastApplied + 1;
    Snapshot(s.lastApplied, seq(len, j => Entry(s.logs, j)))
  }

  predicate SnapshotDue(index: int) {
    (index + 1) % SNAPSHOT_INTERVAL == 0
  }

  // ---------- Interleaved execution ----------

  /** The test's mutex: free; or held by server i, which is checking command v
      at index and has read the logs of the first `seen` servers; or held by
      nCommitted, which has found `count` of them to hold cmd at index. */
  datatype Check =
    | Free
    | Checking(i: nat, index: int, v: Any, seen: nat)
    | Counting(index: int, seen: nat, count: nat, cmd: Any)

  datatype System = System(servers: seq<Server>, check: Check, taken: set<Snapshot>, maxIndex: int)

  ghost predicate Init(s: System, n: nat) {
    s == System(seq(n, _ => Server(map[], 0)), Free, {}, 0)
  }

  predicate Idle(s: System, i: nat) {
    i < |s.servers| && !(s.check.Checking? && s.check.i == i)
  }

  datatype Event =
    | Begin(i: nat, index: int, v: Any)
    | Read
    | Finish
    | Take(i: nat)
    | Ingest(i: nat, snap: Snapshot, index: int)
    | CountBegin(index: int)
    | CountRead
    | CountEnd

  /** The next server's log has another entry than those counted so far. */
  predicate Mismatch(s: System) {
    && s.check.Counting? && s.check.seen < |s.servers| && s.check.count > 0
    && Disagrees(s.servers[s.check.seen].logs, s.check.index, s.check.cmd)
  }

  /** One action that reports no error. Begin receives a command and takes the
      mutex; Read compares it with one server's log; Finish records it. The
      Count events are nCommitted's loop. Other servers may ingest snapshots in
      between, for which they need no mutex of the test's. */
  predicate Unreported(s: System, e: Event) {
    match e
    case Begin(i, index, v) =>
      s.check.Free? && i < |s.servers| && index == s.servers[i].lastApplied + 1
    case Read =>
      && s.check.Checking? && s.check.seen < |s.servers|
      && !Disagrees(s.servers[s.check.seen].logs, s.check.index, s.check.v)
    case Finish =>
      && s.check.Checking? && s.check.seen == |s.servers| && s.check.i < |s.servers|
      && (s.check.index > 1 ==> s.check.index - 1 in s.servers[s.check.i].logs)
    case Take(i) =>
      Idle(s, i) && SnapshotDue(s.servers[i].lastApplied)
    case Ingest(i, snap, index) =>
      Idle(s, i) && (index == -1 || index == snap.last)
    case CountBegin(index) => s.check.Free?
    case CountRead => s.check.Counting? && s.check.seen < |s.servers| && !Mismatch(s)
    case CountEnd => s.check.Counting? && s.check.seen == |s.servers|
  }

  /** An ingested snapshot was taken before. */
  predicate Genuine(s: System, e: Event) {
    e.Ingest? ==> e.snap in s.taken
  }

  /** An ingested snapshot is not older than the log it replaces. */
  predicate Recent(s: System, e: Event) {
    e.Ingest? && e.i < |s.servers| ==> s.servers[e.i].lastApplied <= e.snap.last
  }

  predicate Enabled(s: System, e: Event) {
    Unreported(s, e) && Genuine(s, e) && Recent(s, e)
  }

  function Do(s: System, e: Event): System
    requires Unreported(s, e)
  {
    match e
    case Begin(i, index, v) => s.(check := Checking(i, index, v, 0))
    case Read => s.(check := Checking(s.check.i, s.check.index, s.check.v, s.check.seen + 1))
    case Finish =>
      var c := s.check;
      s.(servers := s.servers[c.i := Recorded(s.servers[c.i], c.index, c.v)], check := Free,
         maxIndex := if c.index > s.maxIndex then c.index else s.maxIndex)
    case Take(i) => s.(taken := s.taken + {Taken(s.servers[i])})
    case Ingest(i, snap, index) => s.(servers := s.servers[i := Restored(snap)])
    case CountBegin(index) => s.(check := Counting(index, 0, 0, Nil))
    case CountRead =>
      var c, log := s.check, s.servers[s.check.seen].logs;
      s.(check := if c.index in log then Counting(c.index, c.seen + 1, c.count + 1, log[c.index])
                  else Counting(c.index, c.seen + 1, c.count, c.cmd))
    case CountEnd => s.(check := Free)
  }

  ghost predicate Runs(s: System, events: seq<Event>, s': System)
    decreases |events|
  {
    if events == [] then s' == s
    else Enabled(s, events[0]) && Runs(Do(s, events[0]), events[1..], s')
  }

  // ---------- What every run without an error keeps ----------

  /** The log holds exactly the indices 1..lastApplied, and at 0 at most nil. */
  ghost predicate Covers(s: Server) {
    && s.lastApplied >= 0
    && (forall k :: k in s.logs && k != 0 <==> 1 <= k <= s.lastApplied)
    && (0 in s.logs ==> s.logs[0] == Nil)
  }

  ghost predicate Agree(servers: seq<Server>) {
    forall i, j, k | 0 <= i < |servers| && 0 <= j < |servers| && k in servers[i].logs && k in servers[j].logs ::
      servers[i].logs[k] == servers[j].logs[k]
  }

  ghost predicate Holds(s: Server, k: int, v: Any) {
    k in s.logs && s.logs[k] == v
  }

  ghost predicate HeldBySome(servers: seq<Server>, k: int, v: Any) {
    exists p | 0 <= p < |servers| :: Holds(servers[p], k, v)
  }

  /** Every entry of a snapshot is in somebody's log. */
  ghost predicate Backed(snap: Snapshot, servers: seq<Server>) {
    && snap.last >= 1 && |snap.xlog| == snap.last + 1 && snap.xlog[0] == Nil
    && forall k | 1 <= k <= snap.last :: HeldBySome(servers, k, snap.xlog[k])
  }

  ghost predicate Opposes(servers: seq<Server>, p: int, index: int, v: Any) {
    0 <= p < |servers| && Disagrees(servers[p].logs, index, v)
  }

  /** A check under way cannot miss a conflict: while any server disagrees, one
      that has not been read yet does. */
  ghost predicate CheckInv(servers: seq<Server>, c: Check) {
    c.Checking? ==>
      && c.i < |servers| && c.index == servers[c.i].lastApplied + 1 && c.seen <= |servers|
      && forall q | Opposes(servers, q, c.index, c.v) :: exists p :: p >= c.seen && Opposes(servers, p, c.index, c.v)
  }

  /** What has been counted is still in somebody's log. */
  ghost predicate CountInv(servers: seq<Server>, c: Check) {
    c.Counting? && c.count > 0 ==> if c.index == 0 then c.cmd == Nil else HeldBySome(servers, c.index, c.cmd)
  }

  ghost predicate MaxInv(servers: seq<Server>, maxIndex: int) {
    && (forall i | 0 <= i < |servers| :: servers[i].lastApplied <= maxIndex)
    && (maxIndex == 0 || exists i | 0 <= i < |servers| :: servers[i].lastApplied == maxIndex)
  }

  ghost predicate Inv(s: System, n: nat) {
    && |s.servers| == n
    && (forall i | 0 <= i < n :: Covers(s.servers[i]))
    && Agree(s.servers)
    && (forall snap | snap in s.taken :: Backed(snap, s.servers))
    && CheckInv(s.servers, s.check)
    && CountInv(s.servers, s.check)
    && MaxInv(s.servers, s.maxIndex)
  }

  /** What a server holds it keeps, if its log only grows. */
  ghost predicate Grows(a: Server, b: Server) {
    forall k | k in a.logs && k != 0 :: k in b.logs && b.logs[k] == a.logs[k]
  }

  lemma HeldStays(servers: seq<Server>, i: nat, x: Server, k: int, v: Any)
    requires i < |servers| && k != 0 && HeldBySome(servers, k, v) && Grows(servers[i], x)
    ensures HeldBySome(servers[i := x], k, v)
  {
    var p :| 0 <= p < |servers| && Holds(servers[p], k, v);
    assert Holds(servers[i := x][p], k, v);
  }

  lemma BackedStays(snap: Snapshot, servers: seq<Server>, i: nat, x: Server)
    requires i < |servers| && Backed(snap, servers) && Grows(servers[i], x)
    ensures Backed(snap, servers[i := x])
  {
    forall k | 1 <= k <= snap.last ensures HeldBySome(servers[i := x], k, snap.xlog[k]) {
      HeldStays(servers, i, x, k, snap.xlog[k]);
    }
  }

  lemma CountStays(servers: seq<Server>, c: Check, i: nat, x: Server)
    requires i < |servers| && CountInv(servers, c) && Grows(servers[i], x)
    ensures CountInv(servers[i := x], c)
  {
    if c.Counting? && c.count > 0 && c.index != 0 {
      HeldStays(servers, i, x, c.index, c.cmd);
    }
  }

  /** A snapshot of an agreed state agrees with every log. */
  lemma SnapshotAgrees(snap: Snapshot, servers: seq<Server>, i: nat, k: int)
    requires Agree(servers) && Backed(snap, servers) && i < |servers|
    requires 1 <= k <= snap.last && k in servers[i].logs
    ensures servers[i].logs[k] == snap.xlog[k]
  {
    assert HeldBySome(servers, k, snap.xlog[k]);
  }

  lemma IngestGrows(snap: Snapshot, servers: seq<Server>, i: nat)
    requires Agree(servers) && Backed(snap, servers) && i < |servers|
    requires Covers(servers[i]) && servers[i].lastApplied <= snap.last
    ensures Grows(servers[i], Restored(snap)) && Covers(Restored(snap))
  {
    var was, now := servers[i].logs, Restored(snap).logs;
    assert forall k :: k in now <==> 0 <= k <= snap.last;
    forall k | k in was && k != 0 ensures k in now && now[k] == was[k] {
      SnapshotAgrees(snap, servers, i, k);
    }
  }

  lemma IngestAgrees(snap: Snapshot, servers: seq<Server>, i: nat)
    requires Agree(servers) && Backed(snap, servers) && i < |servers|
    requires forall j | 0 <= j < |servers| :: Covers(servers[j])
    ensures Agree(servers[i := Restored(snap)])
  {
    forall j, k | 0 <= j < |servers| && k in servers[j].logs && k in Restored(snap).logs
      ensures servers[j].logs[k] == Restored(snap).logs[k]
    {
      if k != 0 {
        SnapshotAgrees(snap, servers, j, k);
      } else {
        assert Covers(servers[j]);
      }
    }
  }

  /** An ingest cannot hide a conflict from a check under way. */
  lemma IngestKeepsCheck(s: System, n: nat, i: nat, snap: Snapshot)
    requires Inv(s, n) && Idle(s, i) && snap in s.taken && s.servers[i].lastApplied <= snap.last
    ensures CheckInv(s.servers[i := Restored(snap)], s.check)
  {
    IngestGrows(snap, s.servers, i);
    var servers, servers', c := s.servers, s.servers[i := Restored(snap)], s.check;
    if c.Checking? {
      assert c.index >= 1 by {
        assert Covers(servers[c.i]);
      }
      forall p | Opposes(servers, p, c.index, c.v) ensures Opposes(servers', p, c.index, c.v) {
      }
      forall q | Opposes(servers', q, c.index, c.v)
        ensures exists p :: p >= c.seen && Opposes(servers', p, c.index, c.v)
      {
        var q0: int;
        if q == i {
          assert HeldBySome(servers, c.index, snap.xlog[c.index]);
          q0 :| 0 <= q0 < n && Holds(servers[q0], c.index, snap.xlog[c.index]);
        } else {
          q0 := q;
        }
        assert Opposes(servers, q0, c.index, c.v);
        var p :| p >= c.seen && Opposes(servers, p, c.index, c.v);
        assert Opposes(servers', p, c.index, c.v);
      }
    }
  }

  lemma IngestKeepsMax(s: System, n: nat, i: nat, snap: Snapshot)
    requires Inv(s, n) && i < n && snap in s.taken && s.servers[i].lastApplied <= snap.last
    ensures MaxInv(s.servers[i := Restored(snap)], s.maxIndex)
  {
    assert HeldBySome(s.servers, snap.last, snap.xlog[snap.last]);
    var p :| 0 <= p < n && Holds(s.servers[p], snap.last, snap.xlog[snap.last]);
    assert Covers(s.servers[p]);
    assert snap.last <= s.servers[p].lastApplied <= s.maxIndex;
    var servers' := s.servers[i := Restored(snap)];
    if s.maxIndex != 0 {
      var m :| 0 <= m < n && s.servers[m].lastApplied == s.maxIndex;
      assert m == i ==> servers'[m].lastApplied == s.maxIndex;
      assert servers'[m].lastApplied == s.maxIndex;
    }
  }

  lemma IngestKeepsInv(s: System, n: nat, i: nat, snap: Snapshot, index: int)
    requires Inv(s, n) && Enabled(s, Ingest(i, snap, index))
    ensures Inv(Do(s, Ingest(i, snap, index)), n)
  {
    IngestGrows(snap, s.servers, i);
    IngestAgrees(snap, s.servers, i);
    IngestKeepsCheck(s, n, i, snap);
    IngestKeepsMax(s, n, i, snap);
    CountStays(s.servers, s.check, i, Restored(snap));
    forall x | x in s.taken ensures Backed(x, s.servers[i := Restored(snap)]) {
      BackedStays(x, s.servers, i, Restored(snap));
    }
  }

  lemma FinishKeepsInv(s: System, n: nat)
    requires Inv(s, n) && Enabled(s, Finish)
    ensures Inv(Do(s, Finish), n)
  {
    var c, x := s.check, Recorded(s.servers[s.check.i], s.check.index, s.check.v);
    var servers' := s.servers[c.i := x];
    assert Covers(s.servers[c.i]) && Covers(x) && Grows(s.servers[c.i], x);
    assert forall q :: !Opposes(s.servers, q, c.index, c.v);
    forall j, k | 0 <= j < n && k in s.servers[j].logs && k in x.logs ensures s.servers[j].logs[k] == x.logs[k] {
      if k == c.index {
        assert !Opposes(s.servers, j, c.index, c.v);
      }
    }
    assert Agree(servers');
    forall snap | snap in s.taken ensures Backed(snap, servers') {
      BackedStays(snap, s.servers, c.i, x);
    }
    FinishKeepsMax(s, n);
  }

  lemma FinishKeepsMax(s: System, n: nat)
    requires Inv(s, n) && Enabled(s, Finish)
    ensures MaxInv(Do(s, Finish).servers, Do(s, Finish).maxIndex)
  {
    var c, s' := s.check, Do(s, Finish);
    if c.index > s.maxIndex {
      assert s'.servers[c.i].lastApplied == s'.maxIndex;
    } else if s.maxIndex != 0 {
      var m :| 0 <= m < n && s.servers[m].lastApplied == s.maxIndex;
      assert s'.servers[m].lastApplied == s'.maxIndex;
    }
  }

  lemma TakeKeepsInv(s: System, n: nat, i: nat)
    requires Inv(s, n) && Enabled(s, Take(i))
    ensures Inv(Do(s, Take(i)), n)
  {
    var me := s.servers[i];
    assert Covers(me) && me.lastApplied >= 1;
    var snap := Taken(me);
    forall k | 1 <= k <= snap.last ensures HeldBySome(s.servers, k, snap.xlog[k]) {
      assert Holds(s.servers[i], k, snap.xlog[k]);
    }
    assert snap.xlog[0] == Nil;
  }

  lemma StepKeepsInv(s: System, n: nat, e: Event)
    requires Inv(s, n) && Enabled(s, e)
    ensures Inv(Do(s, e), n)
  {
    match e
    case Begin(i, index, v) =>
      forall q | Opposes(s.servers, q, index, v) ensures q >= 0 && Opposes(s.servers, q, index, v) {
      }
    case Read =>
      var c := s.check;
      forall q | Opposes(s.servers, q, c.index, c.v)
        ensures exists p :: p >= c.seen + 1 && Opposes(s.servers, p, c.index, c.v)
      {
        var p :| p >= c.seen && Opposes(s.servers, p, c.index, c.v);
        assert p != c.seen;
      }
    case Finish => FinishKeepsInv(s, n);
    case Take(i) => TakeKeepsInv(s, n, i);
    case Ingest(i, snap, index) => IngestKeepsInv(s, n, i, snap, index);
    case CountBegin(index) =>
    case CountRead => CountReadKeepsInv(s, n);
    case CountEnd =>
  }

  lemma CountReadKeepsInv(s: System, n: nat)
    requires Inv(s, n) && Enabled(s, CountRead)
    ensures Inv(Do(s, CountRead), n)
  {
    var c, me := s.check, s.servers[s.check.seen];
    assert Covers(me);
    if c.index in me.logs {
      assert Holds(s.servers[c.seen], c.index, me.logs[c.index]);
    }
  }

  /** nCommitted cannot find two different entries, whatever is ingested between
      its reads. */
  lemma CountsAgree(s: System, n: nat)
    requires Inv(s, n)
    ensures !Mismatch(s)
  {
    var c := s.check;
    if c.Counting? && c.seen < n && c.count > 0 && c.index in s.servers[c.seen].logs {
      assert Covers(s.servers[c.seen]);
      if c.index != 0 {
        var p :| 0 <= p < n && Holds(s.servers[p], c.index, c.cmd);
        assert s.servers[p].logs[c.index] == s.servers[c.seen].logs[c.index];
      }
    }
  }

  lemma {:induction false} RunKeepsInv(s: System, events: seq<Event>, s': System, n: nat)
    requires Inv(s, n) && Runs(s, events, s')
    ensures Inv(s', n)
    decreases |events|
  {
    if events != [] {
      StepKeepsInv(s, n, events[0]);
      RunKeepsInv(Do(s, events[0]), events[1..], s', n);
    }
  }

  /** Checker soundness: after any run without a reported error, whatever Raft
      did, all logs agree wherever they overlap, each covers exactly
      1..lastApplied, and maxIndex is the largest index recorded. */
  lemma ErrorFreeRunsAgree(n: nat, init: System, events: seq<Event>, s: System)
    requires Init(init, n) && Runs(init, events, s)
    ensures |s.servers| == n && Agree(s.servers)
    ensures forall i | 0 <= i < n :: Covers(s.servers[i])
    ensures MaxInv(s.servers, s.maxIndex)
  {
    RunKeepsInv(init, events, s, n);
  }

  // ---------- A message handled without interruption ----------

  /** Server i has recorded command v at index. */
  function Delivered(s: System, i: nat, index: int, v: Any): System
    requires i < |s.servers|
  {
    s.(servers := s.servers[i := Recorded(s.servers[i], index, v)],
       maxIndex := if index > s.maxIndex then index else s.maxIndex)
  }

  /** No error is reported when the command is in order and nobody disagrees. */
  ghost predicate Deliverable(s: System, i: nat, index: int, v: Any) {
    && i < |s.servers| && index == s.servers[i].lastApplied + 1
    && (index > 1 ==> index - 1 in s.servers[i].logs)
    && forall j | 0 <= j < |s.servers| :: !Disagrees(s.servers[j].logs, index, v)
  }

  /** Handling a command in one piece is one of the interleavings. */
  lemma DeliveryIsARun(s: System, i: nat, index: int, v: Any)
    requires s.check.Free? && Deliverable(s, i, index, v)
    ensures exists events :: Runs(s, events, Delivered(s, i, index, v))
  {
    var s1 := s.(check := Checking(i, index, v, 0));
    var rest := ReadAll(s1, Delivered(s, i, index, v));
    var events := [Begin(i, index, v)] + rest;
    assert events[1..] == rest;
    assert Runs(s, events, Delivered(s, i, index, v));
  }

  lemma {:induction false} ReadAll(s: System, goal: System) returns (events: seq<Event>)
    requires s.check.Checking? && s.check.seen <= |s.servers| && Deliverable(s, s.check.i, s.check.index, s.check.v)
    requires goal == Delivered(s, s.check.i, s.check.index, s.check.v).(check := Free)
    ensures Runs(s, events, goal)
    decreases |s.servers| - s.check.seen
  {
    if s.check.seen == |s.servers| {
      events := [Finish];
      assert events[1..] == [];
      assert Runs(Do(s, Finish), [], goal);
    } else {
      var rest := ReadAll(Do(s, Read), goal);
      events := [Read] + rest;
      assert events[1..] == rest;
    }
  }

  // ---------- What is asked of snapshots, and why ----------

  /** As Runs, where forged and stale say what else may be ingested. */
  ghost predicate RunsWith(s: System, events: seq<Event>, s': System, forged: bool, stale: bool)
    decreases |events|
  {
    if events == [] then s' == s
    else
      && Unreported(s, events[0]) && (forged || Genuine(s, events[0])) && (stale || Recent(s, events[0]))
      && RunsWith(Do(s, events[0]), events[1..], s', forged, stale)
  }

  lemma {:induction false} RunsAreRuns(s: System, events: seq<Event>, s': System, forged: bool, stale: bool)
    requires Runs(s, events, s')
    ensures RunsWith(s, events, s', forged, stale)
    decreases |events|
  {
    if events != [] {
      RunsAreRuns(Do(s, events[0]), events[1..], s', forged, stale);
    }
  }

  lemma {:induction false} Join(a: System, first: seq<Event>, b: System, second: seq<Event>, c: System, forged: bool, stale: bool)
    requires RunsWith(a, first, b, forged, stale) && RunsWith(b, second, c, forged, stale)
    ensures RunsWith(a, first + second, c, forged, stale)
    decreases |first|
  {
    if first == [] {
      assert first + second == second;
    } else {
      Join(Do(a, first[0]), first[1..], b, second, c, forged, stale);
      assert (first + second)[0] == first[0] && (first + second)[1..] == first[1..] + second;
    }
  }

  /** One more event after a run. */
  lemma Then(a: System, events: seq<Event>, b: System, e: Event, forged: bool, stale: bool)
    requires RunsWith(a, events, b, forged, stale)
    requires Unreported(b, e) && (forged || Genuine(b, e)) && (stale || Recent(b, e))
    ensures RunsWith(a, events + [e], Do(b, e), forged, stale)
  {
    assert [e][1..] == [];
    Join(a, events, b, [e], Do(b, e), forged, stale);
  }

  /** One more command, recorded by server i without interruption. */
  lemma ThenDeliver(a: System, events: seq<Event>, b: System, i: nat, index: int, v: Any, forged: bool, stale: bool)
      returns (events': seq<Event>)
    requires RunsWith(a, events, b, forged, stale) && b.check.Free? && Deliverable(b, i, index, v)
    ensures RunsWith(a, events', Delivered(b, i, index, v), forged, stale)
  {
    DeliveryIsARun(b, i, index, v);
    var more :| Runs(b, more, Delivered(b, i, index, v));
    RunsAreRuns(b, more, Delivered(b, i, index, v), forged, stale);
    Join(a, events, b, more, Delivered(b, i, index, v), forged, stale);
    events' := events + more;
  }

  /** A log of k equal commands. */
  function Uniform(k: nat): Server {
    Server(UniformLog(k), k)
  }

  function UniformLog(k: nat): (log: Log)
    ensures forall j :: j in log <==> 1 <= j <= k
    ensures forall j | j in log :: log[j] == Command(0)
  {
    if k == 0 then map[] else UniformLog(k - 1)[k := Command(0)]
  }

  /** No log has another command at these indices. */
  ghost predicate AllUniform(servers: seq<Server>, from: int, last: int) {
    forall j | 0 <= j < |servers| :: UniformWithin(servers[j].logs, from, last)
  }

  ghost predicate UniformWithin(log: Log, from: int, last: int) {
    forall k | from < k <= last && k in log :: log[k] == Command(0)
  }

  /** Server i records equal commands up to index `last`. */
  lemma {:induction false} ThenFill(a: System, events: seq<Event>, b: System, i: nat, from: nat, last: nat, forged: bool, stale: bool)
      returns (events': seq<Event>, c: System)
    requires RunsWith(a, events, b, forged, stale) && b.check.Free? && i < |b.servers|
    requires from <= last && b.servers[i] == Uniform(from) && AllUniform(b.servers, from, last)
    ensures RunsWith(a, events', c, forged, stale)
    ensures c.servers == b.servers[i := Uniform(last)] && c.check.Free? && c.taken == b.taken
    decreases last
  {
    if from == last {
      events', c := events, b;
    } else {
      var events1, b1 := ThenFill(a, events, b, i, from, last - 1, forged, stale);
      assert !Disagrees(Uniform(last - 1).logs, last, Command(0));
      assert forall j | 0 <= j < |b.servers| :: !Disagrees(b.servers[j].logs, last, Command(0));
      events' := ThenDeliver(a, events1, b1, i, last, Command(0), forged, stale);
      c := Delivered(b1, i, last, Command(0));
      assert Recorded(Uniform(last - 1), last, Command(0)) == Uniform(last);
      assert c.servers == b.servers[i := Uniform(last)];
    }
  }

  lemma InitialServers(n: nat, init: System)
    requires Init(init, n)
    ensures RunsWith(init, [], init, false, true) && |init.servers| == n
    ensures forall j | 0 <= j < n :: init.servers[j] == Uniform(0)
  {
  }

  /** Server 0 snapshots its log at 9 and at 19, and then ingests the older one. */
  lemma OldSnapshotBack(n: nat, init: System) returns (events: seq<Event>, s: System)
    requires n >= 2 && Init(init, n)
    ensures RunsWith(init, events, s, false, true) && s.check.Free? && |s.servers| == n
    ensures s.servers[0] == Restored(Taken(Uniform(9))) && Taken(Uniform(19)) in s.taken
    ensures forall j | 1 <= j < n :: s.servers[j] == Uniform(0)
  {
    InitialServers(n, init);
    var e1, s1 := ThenFill(init, [], init, 0, 0, 9, false, true);
    Then(init, e1, s1, Take(0), false, true);
    var e2, s2 := ThenFill(init, e1 + [Take(0)], Do(s1, Take(0)), 0, 9, 19, false, true);
    Then(init, e2, s2, Take(0), false, true);
    var s3, old9 := Do(s2, Take(0)), Taken(Uniform(9));
    assert old9 in s3.taken;
    Then(init, e2 + [Take(0)], s3, Ingest(0, old9, 9), false, true);
    events, s := e2 + [Take(0)] + [Ingest(0, old9, 9)], Do(s3, Ingest(0, old9, 9));
  }

  /** Ingesting genuine but older snapshots would let the logs disagree without
      an error: in the gap it leaves, another server's different command goes
      unnoticed, and a newer snapshot brings the first one back. */
  lemma StaleSnapshotsHideConflicts(n: nat, init: System) returns (events: seq<Event>, s: System)
    requires n >= 2 && Init(init, n)
    ensures RunsWith(init, events, s, false, true) && !Agree(s.servers)
  {
    var e1, s1 := OldSnapshotBack(n, init);
    assert AllUniform(s1.servers, 0, 9);
    var e2, s2 := ThenFill(init, e1, s1, 1, 0, 9, false, true);
    assert forall j | 0 <= j < n :: 10 !in s2.servers[j].logs;
    var e3 := ThenDeliver(init, e2, s2, 1, 10, Command(1), false, true);
    var s3, new19 := Delivered(s2, 1, 10, Command(1)), Taken(Uniform(19));
    Then(init, e3, s3, Ingest(0, new19, 19), false, true);
    events, s := e3 + [Ingest(0, new19, 19)], Do(s3, Ingest(0, new19, 19));
    assert s.servers[0].logs[10] == Command(0) && s.servers[1].logs[10] == Command(1);
  }

  /** So would ingesting a snapshot that nobody took. */
  lemma ForgedSnapshotsHideConflicts(n: nat, init: System) returns (events: seq<Event>, s: System)
    requires n >= 2 && Init(init, n)
    ensures RunsWith(init, events, s, true, false) && !Agree(s.servers)
  {
    var e1 := ThenDeliver(init, [], init, 0, 1, Command(1), true, false);
    var s1, forged := Delivered(init, 0, 1, Command(1)), Snapshot(1, [Nil, Command(0)]);
    Then(init, e1, s1, Ingest(1, forged, 1), true, false);
    events, s := e1 + [Ingest(1, forged, 1)], Do(s1, Ingest(1, forged, 1));
    assert s.servers[0].logs[1] == Command(1) && s.servers[1].logs[1] == Command(0);
  }
}
