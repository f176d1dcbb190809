/** Requests, server registration, persisters and restarts, interleaved in any
    order: what a positive reply promises, and what a restarted server finds. */
module RpcDurability {
  import opened Collections

  type End = nat
  /** The i'th server of group gid. */
  datatype Name = ServerName(gid: int, i: nat)

  /** Instances of servers and persisters are numbered in order of creation. */
  type Inst = nat
  type Pid = nat

  datatype Option<T> = None | Some(value: T)

  /** A Save call: a unique stamp, who made it, what it wrote, and whether the
      maker's persister had been superseded by then. */
  datatype Save = Save(stamp: nat, inst: Inst, data: int, superseded: bool)

  datatype Reply = Failed | Answer(result: int)

  datatype Handler = NotStarted | Executing | Returned(result: int)

  /** Where processReq is: in its waiting loop, past it with or without a reply,
      holding a delayed reply, or finished. */
  datatype Pc = Waiting | HaveReply | GaveUp | Delayed | Ended

  /** saves: what its handler saved. passed: the final check found the server
      alive. starts counts handler executions. */
  datatype Request = Request(end: End, name: Name, inst: Inst, handler: Handler, pc: Pc,
                             starts: nat, replies: seq<Reply>, passed: bool, saves: seq<Save>)

  /** The tester's view of a server name, between the steps of shutting it down
      (delete, then copy the persister) and starting it (copy the persister and
      make an instance, then register it). */
  datatype Phase = Up | Deleted | Down | Booting(inst: Inst)

  datatype Network = Network(enabled: map<End, bool>, connections: map<End, Name>, servers: map<Name, Inst>)

  /** What outlives instances: the persister each name would be restarted from,
      each instance's persister and name, and all that each persister has been
      asked to save, what it was copied from included. */
  datatype Store = Store(saved: map<Name, Pid>, persister: seq<Pid>, owner: seq<Name>, hist: seq<seq<Save>>)

  datatype System = System(net: Network, phase: map<Name, Phase>, store: Store, clock: nat, reqs: seq<Request>)

  const INIT := System(Network(map[], map[], map[]), map[], Store(map[], [], [], []), 0, [])

  // ---------- The network's two reads ----------

  function IsEnabled(net: Network, e: End): bool {
    e in net.enabled && net.enabled[e]
  }

  /** The name and the server that a request from this end reaches, if any. */
  function ReadEndnameInfo(net: Network, e: End): Option<(Name, Inst)> {
    if IsEnabled(net, e) && e in net.connections && net.connections[e] in net.servers
    then Some((net.connections[e], net.servers[net.connections[e]]))
    else None
  }

  predicate IsServerDead(net: Network, e: End, n: Name, i: Inst) {
    !IsEnabled(net, e) || n !in net.servers || net.servers[n] != i
  }

  // ---------- Steps ----------

  /** What happens to an answer after the final check. */
  datatype Fate = Dropped | Postponed | Sent

  datatype Event =
    | SetEnabled(e: End, on: bool)
    | SetConnection(e: End, n: Name)
    | Arrive(e: End, lost: bool)
    | HandlerSave(r: nat, data: int)
    | OtherSave(i: Inst, data: int)
    | HandlerReturn(r: nat, result: int)
    | Receive(r: nat)
    | Poll(r: nat)
    | FinalCheck(r: nat, fate: Fate)
    | LateReply(r: nat)
    | Delete(n: Name)
    | CopyOnShutdown(n: Name)
    | Boot(n: Name)
    | Register(n: Name)

  function PhaseOf(s: System, n: Name): Phase {
    if n in s.phase then s.phase[n] else Down
  }

  /** May e happen in s? A careless tester may also start a server that is up. */
  predicate Possible(s: System, e: Event) {
    match e
    case SetEnabled(_, _) => true
    case SetConnection(e, _) => e !in s.net.connections
    case Arrive(_, _) => true
    case HandlerSave(r, _) =>
      r < |s.reqs| && s.reqs[r].handler.Executing? && HasInstance(s.store, s.reqs[r].inst)
    case OtherSave(i, _) => HasInstance(s.store, i)
    case HandlerReturn(r, _) => r < |s.reqs| && s.reqs[r].handler.Executing?
    case Receive(r) => r < |s.reqs| && s.reqs[r].pc.Waiting? && s.reqs[r].handler.Returned?
    case Poll(r) => r < |s.reqs| && s.reqs[r].pc.Waiting? && Dead(s, r)
    case FinalCheck(r, _) => r < |s.reqs| && (s.reqs[r].pc.HaveReply? || s.reqs[r].pc.GaveUp?)
    case LateReply(r) => r < |s.reqs| && s.reqs[r].pc.Delayed?
    case Delete(n) => PhaseOf(s, n).Up? || PhaseOf(s, n).Down?
    case CopyOnShutdown(n) => PhaseOf(s, n).Deleted? && HasCopy(s.store, n)
    case Boot(n) => (PhaseOf(s, n).Up? || PhaseOf(s, n).Down?) && HasCopy(s.store, n)
    case Register(n) => PhaseOf(s, n).Booting?
  }

  predicate HasInstance(st: Store, i: Inst) {
    i < |st.persister| && i < |st.owner| && st.persister[i] < |st.hist|
  }

  predicate HasCopy(st: Store, n: Name) {
    n in st.saved ==> st.saved[n] < |st.hist|
  }

  predicate Dead(s: System, r: nat)
    requires r < |s.reqs|
  {
    IsServerDead(s.net, s.reqs[r].end, s.reqs[r].name, s.reqs[r].inst)
  }

  function NewRequest(net: Network, e: End, lost: bool): Request {
    match ReadEndnameInfo(net, e)
    case Some((n, i)) =>
      if lost then Request(e, n, i, NotStarted, Ended, 0, [Failed], false, [])
      else Request(e, n, i, Executing, Waiting, 1, [], false, [])
    case None => Request(e, ServerName(0, 0), 0, NotStarted, Ended, 0, [Failed], false, [])
  }

  /** Is i's persister the one a restart would copy? */
  predicate IsCurrent(st: Store, i: Inst)
    requires i < |st.persister| && i < |st.owner|
  {
    st.owner[i] in st.saved && st.saved[st.owner[i]] == st.persister[i]
  }

  function Append(st: Store, i: Inst, x: Save): Store
    requires HasInstance(st, i)
  {
    var p := st.persister[i];
    st.(hist := st.hist[p := st.hist[p] + [x]])
  }

  /** The history a copy of the name's persister starts with. */
  function Inherited(st: Store, n: Name): seq<Save>
    requires HasCopy(st, n)
  {
    if n in st.saved then st.hist[st.saved[n]] else []
  }

  function Copied(st: Store, n: Name): Store
    requires HasCopy(st, n)
  {
    st.(hist := st.hist + [Inherited(st, n)], saved := st.saved[n := |st.hist|])
  }

  function NewInstance(st: Store, n: Name): Store
    requires HasCopy(st, n)
  {
    Copied(st, n).(persister := st.persister + [|st.hist|], owner := st.owner + [n])
  }

  /** The save that instance i would make now. */
  function NextSave(s: System, i: Inst, data: int): Save
    requires HasInstance(s.store, i)
  {
    Save(s.clock, i, data, !IsCurrent(s.store, i))
  }

  function AfterCheck(q: Request, dead: bool, fate: Fate): Request {
    if dead || q.pc.GaveUp? || !q.handler.Returned? then q.(pc := Ended, replies := q.replies + [Failed])
    else match fate
      case Dropped => q.(pc := Ended, replies := q.replies + [Failed], passed := true)
      case Postponed => q.(pc := Delayed, passed := true)
      case Sent => q.(pc := Ended, replies := q.replies + [Answer(q.handler.result)], passed := true)
  }

  function SetReq(s: System, r: nat, q: Request): System
    requires r < |s.reqs|
  {
    s.(reqs := s.reqs[r := q])
  }

  function Do(s: System, e: Event): System
    requires Possible(s, e)
  {
    match e
    case SetEnabled(e, on) => s.(net := s.net.(enabled := s.net.enabled[e := on]))
    case SetConnection(e, n) => s.(net := s.net.(connections := s.net.connections[e := n]))
    case Arrive(e, lost) => s.(reqs := s.reqs + [NewRequest(s.net, e, lost)])
    case HandlerSave(r, data) =>
      var q := s.reqs[r];
      var x := NextSave(s, q.inst, data);
      s.(store := Append(s.store, q.inst, x), clock := s.clock + 1, reqs := s.reqs[r := q.(saves := q.saves + [x])])
    case OtherSave(i, data) =>
      s.(store := Append(s.store, i, NextSave(s, i, data)), clock := s.clock + 1)
    case HandlerReturn(r, result) => SetReq(s, r, s.reqs[r].(handler := Returned(result)))
    case Receive(r) => SetReq(s, r, s.reqs[r].(pc := HaveReply))
    case Poll(r) => SetReq(s, r, s.reqs[r].(pc := GaveUp))
    case FinalCheck(r, fate) => SetReq(s, r, AfterCheck(s.reqs[r], Dead(s, r), fate))
    case LateReply(r) =>
      var q := s.reqs[r];
      var reply := if q.handler.Returned? then Answer(q.handler.result) else Failed;
      SetReq(s, r, q.(pc := Ended, replies := q.replies + [reply]))
    case Delete(n) => s.(net := s.net.(servers := s.net.servers - {n}), phase := s.phase[n := Deleted])
    case CopyOnShutdown(n) =>
      s.(store := if n in s.store.saved then Copied(s.store, n) else s.store, phase := s.phase[n := Down])
    case Boot(n) =>
      s.(store := NewInstance(s.store, n), phase := s.phase[n := Booting(|s.store.persister|)])
    case Register(n) =>
      s.(net := s.net.(servers := s.net.servers[n := s.phase[n].inst]), phase := s.phase[n := Up])
  }

  /** A run: states, and the event that leads from each to the next. */
  ghost predicate IsRun(run: seq<System>, events: seq<Event>) {
    && |run| == |events| + 1 && run[0] == INIT
    && forall k | 0 <= k < |events| :: Possible(run[k], events[k]) && run[k + 1] == Do(run[k], events[k])
  }

  // ---------- One execution, one reply ----------

  ghost predicate RequestInv(q: Request) {
    && (q.starts == 0 ==> q.handler.NotStarted? && q.pc.Ended?)
    && (q.starts > 0 ==> q.starts == 1 && !q.handler.NotStarted?)
    && |q.replies| == (if q.pc.Ended? then 1 else 0)
    && (q.pc.HaveReply? || q.pc.Delayed? ==> q.handler.Returned?)
    && (q.pc.Delayed? ==> q.passed)
    && (q.passed ==> q.handler.Returned? && (q.pc.Delayed? || q.pc.Ended?))
    && (forall k | 0 <= k < |q.replies| && q.replies[k].Answer? ::
          q.passed && q.handler.Returned? && q.replies[k].result == q.handler.result)
  }

  ghost predicate RequestsInv(s: System) {
    forall r | 0 <= r < |s.reqs| :: RequestInv(s.reqs[r])
  }

  lemma RequestsStep(s: System, e: Event)
    requires RequestsInv(s) && Possible(s, e)
    ensures RequestsInv(Do(s, e))
  {
    match e {
      case Arrive(e, lost) => assert RequestInv(NewRequest(s.net, e, lost));
      case HandlerSave(r, data) => assert RequestInv(s.reqs[r]);
      case HandlerReturn(r, result) => assert RequestInv(s.reqs[r]);
      case Receive(r) => assert RequestInv(s.reqs[r]);
      case Poll(r) => assert RequestInv(s.reqs[r]);
      case FinalCheck(r, fate) => assert RequestInv(s.reqs[r]);
      case LateReply(r) => assert RequestInv(s.reqs[r]);
      case _ =>
    }
  }

  lemma {:induction false} RequestsRun(run: seq<System>, events: seq<Event>, k: nat)
    requires IsRun(run, events) && k < |run|
    ensures RequestsInv(run[k])
  {
    if k > 0 {
      RequestsRun(run, events, k - 1);
      RequestsStep(run[k - 1], events[k - 1]);
    }
  }

  /** A moment when the request's final check is due, its handler has returned
      this result, its end is enabled and its server is still registered. */
  ghost predicate CheckedAlive(s: System, r: nat, result: int) {
    && r < |s.reqs| && s.reqs[r].pc.HaveReply? && s.reqs[r].handler == Returned(result)
    && s.reqs[r].end in s.net.enabled && s.net.enabled[s.reqs[r].end]
    && s.reqs[r].name in s.net.servers && s.net.servers[s.reqs[r].name] == s.reqs[r].inst
  }

  /** Such a moment for a request that is later found as q. */
  ghost predicate CheckedAs(s: System, r: nat, q: Request) {
    && q.handler.Returned? && CheckedAlive(s, r, q.handler.result)
    && s.reqs[r].end == q.end && s.reqs[r].name == q.name && s.reqs[r].inst == q.inst && s.reqs[r].saves == q.saves
  }

  ghost predicate SameServing(p: Request, q: Request) {
    p.handler == q.handler && p.end == q.end && p.name == q.name && p.inst == q.inst && p.saves == q.saves
  }

  /** A request passes only at a final check that finds its server alive, and is
      served no more after that. */
  lemma PassStep(s: System, e: Event, r: nat, q: Request)
    requires RequestsInv(s) && Possible(s, e)
    requires r < |Do(s, e).reqs| && Do(s, e).reqs[r].passed && SameServing(Do(s, e).reqs[r], q)
    ensures r < |s.reqs|
    ensures CheckedAs(s, r, q) || (s.reqs[r].passed && SameServing(s.reqs[r], q))
  {
    RequestsStep(s, e);
    assert RequestInv(Do(s, e).reqs[r]);
    if r < |s.reqs| {
      assert RequestInv(s.reqs[r]);
    }
  }

  /** A request that has passed did so at an earlier moment j. */
  lemma {:induction false} PassedWasAlive(run: seq<System>, events: seq<Event>, k: nat, r: nat, q: Request)
      returns (j: nat)
    requires IsRun(run, events) && k < |run| && r < |run[k].reqs|
    requires run[k].reqs[r].passed && SameServing(run[k].reqs[r], q)
    ensures j < k && CheckedAs(run[j], r, q)
  {
    assert k > 0;
    j := k - 1;
    RequestsRun(run, events, j);
    PassStep(run[j], events[j], r, q);
    if !CheckedAs(run[j], r, q) {
      j := PassedWasAlive(run, events, j, r, q);
    }
  }

  /** At this moment the request was due for its final check, with its end
      enabled and its server registered. */
  ghost predicate WasAlive(run: seq<System>, j: nat, r: nat, q: Request) {
    && j < |run| && r < |run[j].reqs| && run[j].reqs[r].pc.HaveReply? && run[j].reqs[r].handler == q.handler
    && q.end in run[j].net.enabled && run[j].net.enabled[q.end]
    && q.name in run[j].net.servers && run[j].net.servers[q.name] == q.inst
  }

  /** For every request in every run: at most one reply is sent and exactly one
      once processing has ended, and an answer carries the result of the
      handler's execution on a server that was still registered, over an end
      that was still enabled, at the final check. That the handler starts at
      most once holds by the shape of the steps: only an arrival starts one. */
  lemma AtMostOnce(run: seq<System>, events: seq<Event>, k: nat, r: nat)
    requires IsRun(run, events) && k < |run| && r < |run[k].reqs|
    ensures var q := run[k].reqs[r];
      && q.starts <= 1 && |q.replies| <= 1
      && (q.pc.Ended? <==> |q.replies| == 1)
      && forall x | Answer(x) in q.replies ::
           q.starts == 1 && q.handler == Returned(x) && exists j :: 0 <= j < k && WasAlive(run, j, r, q)
  {
    RequestsRun(run, events, k);
    var q := run[k].reqs[r];
    assert RequestInv(q);
    forall x | Answer(x) in q.replies
      ensures q.starts == 1 && q.handler == Returned(x) && exists j :: 0 <= j < k && WasAlive(run, j, r, q)
    {
      var j := PassedWasAlive(run, events, k, r, q);
      assert WasAlive(run, j, r, q);
    }
  }

  /** A request is served if and only if it is not lost and, when it arrives,
      its end is enabled and leads to a name under which a server is registered;
      then that server serves it. Otherwise its one reply is a failure. */
  lemma ArrivalOutcome(s: System, e: End, lost: bool)
    ensures var reqs := Do(s, Arrive(e, lost)).reqs;
      var q := reqs[|s.reqs|];
      && |reqs| == |s.reqs| + 1 && reqs[..|s.reqs|] == s.reqs && q.end == e
      && (if !lost && e in s.net.enabled && s.net.enabled[e] &&
             e in s.net.connections && s.net.connections[e] in s.net.servers
          then
            && q.handler.Executing? && q.pc.Waiting? && q.starts == 1 && q.replies == []
            && q.name == s.net.connections[e] && q.inst == s.net.servers[q.name]
          else q.handler.NotStarted? && q.pc.Ended? && q.starts == 0 && q.replies == [Failed])
  {
  }

  /** A waiting request gives up only when its end is disabled or its server is
      no longer registered. */
  lemma PollOnlyWhenDead(s: System, r: nat)
    requires r < |s.reqs|
    ensures var q := s.reqs[r];
      Possible(s, Poll(r)) <==>
        && q.pc.Waiting?
        && !(q.end in s.net.enabled && s.net.enabled[q.end] && q.name in s.net.servers && s.net.servers[q.name] == q.inst)
  {
  }

  /** The final check sends the handler's result if it has been received, the
      end is enabled, the server is registered, and the reply is neither dropped
      nor postponed; a postponed reply is still owed; all else is a failure. */
  lemma FinalCheckOutcome(s: System, r: nat, fate: Fate)
    requires RequestsInv(s) && Possible(s, FinalCheck(r, fate))
    ensures var q, q' := s.reqs[r], Do(s, FinalCheck(r, fate)).reqs[r];
      && q'.handler == q.handler
      && (if q.pc.HaveReply? && q.end in s.net.enabled && s.net.enabled[q.end] &&
             q.name in s.net.servers && s.net.servers[q.name] == q.inst
          then
            && q'.passed && q.handler.Returned?
            && (fate == Sent ==> q'.pc.Ended? && q'.replies == [Answer(q.handler.result)])
            && (fate == Postponed ==> q'.pc.Delayed? && q'.replies == [])
            && (fate == Dropped ==> q'.pc.Ended? && q'.replies == [Failed])
          else !q'.passed && q'.pc.Ended? && q'.replies == [Failed])
  {
    assert RequestInv(s.reqs[r]);
  }

  lemma OwedStep(s: System, e: Event, r: nat, result: int)
    requires RequestsInv(s) && Possible(s, e) && r < |s.reqs| && Owed(s.reqs[r], result)
    ensures r < |Do(s, e).reqs| && Owed(Do(s, e).reqs[r], result)
  {
    assert RequestInv(s.reqs[r]);
  }

  /** A postponed reply, still owed or sent by now. */
  ghost predicate Owed(q: Request, result: int) {
    && q.handler == Returned(result)
    && ((q.pc.Delayed? && q.replies == []) || (q.pc.Ended? && q.replies == [Answer(result)]))
  }

  lemma OwedEvent(run: seq<System>, events: seq<Event>, k: nat, r: nat, result: int)
    requires IsRun(run, events) && k < |events| && r < |run[k].reqs| && Owed(run[k].reqs[r], result)
    ensures r < |run[k + 1].reqs| && Owed(run[k + 1].reqs[r], result)
  {
    var s, e := run[k], events[k];
    assert Possible(s, e) && run[k + 1] == Do(s, e);
    assert RequestsInv(s) by {
      RequestsRun(run, events, k);
    }
    OwedStep(s, e, r, result);
  }

  lemma {:induction false} OwedRun(run: seq<System>, events: seq<Event>, j: nat, k: nat, r: nat, result: int)
    requires IsRun(run, events) && j <= k < |run| && r < |run[j].reqs| && Owed(run[j].reqs[r], result)
    ensures r < |run[k].reqs| && Owed(run[k].reqs[r], result)
  {
    if j < k {
      OwedRun(run, events, j, k - 1, r, result);
      OwedEvent(run, events, k - 1, r, result);
    }
  }

  /** A postponed reply, once it is sent, carries the handler's result. */
  lemma LateRepliesAnswer(run: seq<System>, events: seq<Event>, j: nat, k: nat, r: nat)
    requires IsRun(run, events) && j <= k < |run| && r < |run[j].reqs| && run[j].reqs[r].pc.Delayed?
    ensures r < |run[k].reqs| && run[j].reqs[r].handler.Returned?
    ensures var q, result := run[k].reqs[r], run[j].reqs[r].handler.result;
      (q.pc.Delayed? && q.replies == []) || (q.pc.Ended? && q.replies == [Answer(result)])
  {
    RequestsRun(run, events, j);
    assert RequestInv(run[j].reqs[r]);
    OwedRun(run, events, j, k, r, run[j].reqs[r].handler.result);
  }

  // ---------- Registration and persisters ----------

  /** i is the newest instance of its name. */
  ghost predicate Newest(owner: seq<Name>, i: Inst)
    requires i < |owner|
  {
    forall j | 0 <= j < |owner| && owner[j] == owner[i] :: j <= i
  }

  /** Every instance has a persister of its own; the one a name would be
      restarted from belongs to no other name and to no older instance. */
  ghost predicate StoreInv(st: Store) {
    && |st.owner| == |st.persister|
    && (forall i | 0 <= i < |st.persister| :: st.persister[i] < |st.hist| && st.owner[i] in st.saved)
    && (forall i, j | 0 <= i < j < |st.persister| :: st.persister[i] != st.persister[j])
    && (forall n | n in st.saved :: st.saved[n] < |st.hist|)
    && (forall n, m | n in st.saved && m in st.saved && n != m :: st.saved[n] != st.saved[m])
    && (forall n, i | n in st.saved && 0 <= i < |st.persister| && st.saved[n] == st.persister[i] ::
          st.owner[i] == n && Newest(st.owner, i))
  }

  ghost predicate CurrentOf(st: Store, n: Name, i: Inst) {
    i < |st.owner| && i < |st.persister| && st.owner[i] == n && IsCurrent(st, i)
  }

  /** A server that is up has its current instance registered. While a server
      that was not shut down is starting again, an older one may still be. */
  ghost predicate RegistryInv(servers: map<Name, Inst>, phase: map<Name, Phase>, st: Store) {
    && (forall n | n in servers :: n in phase && (phase[n].Up? || phase[n].Booting?) && OwnedBy(st.owner, servers[n], n))
    && (forall n | n in phase && phase[n].Up? :: n in servers && CurrentOf(st, n, servers[n]))
    && (forall n | n in phase && phase[n].Booting? :: CurrentOf(st, n, phase[n].inst))
  }

  ghost predicate OwnedBy(owner: seq<Name>, i: Inst, n: Name) {
    i < |owner| && owner[i] == n
  }

  ghost predicate OwnersInv(reqs: seq<Request>, owner: seq<Name>) {
    forall r | 0 <= r < |reqs| && reqs[r].starts > 0 :: reqs[r].inst < |owner| && owner[reqs[r].inst] == reqs[r].name
  }

  ghost predicate TesterInv(s: System) {
    StoreInv(s.store) && RegistryInv(s.net.servers, s.phase, s.store) && OwnersInv(s.reqs, s.store.owner)
  }

  lemma AppendKeepsStore(st: Store, i: Inst, x: Save)
    requires StoreInv(st) && HasInstance(st, i)
    ensures StoreInv(Append(st, i, x))
  {
  }

  lemma CopyKeepsDistinct(st: Store, n: Name)
    requires StoreInv(st)
    ensures var st' := Copied(st, n);
      forall l, m | l in st'.saved && m in st'.saved && l != m :: st'.saved[l] != st'.saved[m]
  {
    var st' := Copied(st, n);
    forall l, m | l in st'.saved && m in st'.saved && l != m ensures st'.saved[l] != st'.saved[m] {
      assert l != n ==> st.saved[l] < |st.hist|;
      assert m != n ==> st.saved[m] < |st.hist|;
    }
  }

  lemma CopyKeepsStore(st: Store, n: Name)
    requires StoreInv(st)
    ensures HasCopy(st, n) && StoreInv(Copied(st, n))
  {
    CopyKeepsNewest(st, n);
    CopyKeepsDistinct(st, n);
  }

  lemma CopyKeepsNewest(st: Store, n: Name)
    requires StoreInv(st)
    ensures var st' := Copied(st, n);
      forall m, i | m in st'.saved && 0 <= i < |st'.persister| && st'.saved[m] == st'.persister[i] ::
        st'.owner[i] == m && Newest(st'.owner, i)
  {
    var st' := Copied(st, n);
    forall m, i | m in st'.saved && 0 <= i < |st'.persister| && st'.saved[m] == st'.persister[i]
      ensures st'.owner[i] == m && Newest(st'.owner, i)
    {
      assert m != n && st.saved[m] == st.persister[i];
    }
  }

  lemma NewInstanceKeepsStore(st: Store, n: Name)
    requires StoreInv(st)
    ensures HasCopy(st, n) && StoreInv(NewInstance(st, n))
  {
    CopyKeepsStore(st, n);
    assert forall i | 0 <= i < |st.persister| :: st.persister[i] != |st.hist|;
    AddInstance(Copied(st, n), n, |st.hist|);
  }

  lemma AddInstance(st: Store, n: Name, p: Pid)
    requires StoreInv(st) && n in st.saved && st.saved[n] == p
    requires forall i | 0 <= i < |st.persister| :: st.persister[i] != p
    ensures StoreInv(st.(persister := st.persister + [p], owner := st.owner + [n]))
  {
    var st' := st.(persister := st.persister + [p], owner := st.owner + [n]);
    forall m, i | m in st'.saved && 0 <= i < |st'.persister| && st'.saved[m] == st'.persister[i]
      ensures st'.owner[i] == m && Newest(st'.owner, i)
    {
      if i < |st.persister| {
        assert m != n;
        assert Newest(st.owner, i);
      }
    }
  }

  /** Names other than the one being restarted keep their current instance, and
      instances keep their names. */
  ghost predicate OthersStay(st: Store, n: Name, st': Store) {
    && (forall m, i | m != n && CurrentOf(st, m, i) :: CurrentOf(st', m, i))
    && (forall m, i | OwnedBy(st.owner, i, m) :: OwnedBy(st'.owner, i, m))
  }

  lemma CopyLeavesOthers(st: Store, n: Name)
    requires HasCopy(st, n)
    ensures OthersStay(st, n, Copied(st, n)) && OthersStay(st, n, NewInstance(st, n))
  {
  }

  lemma RegistryAfterRestart(s: System, n: Name, st: Store, phase: Phase)
    requires TesterInv(s) && OthersStay(s.store, n, st)
    requires !phase.Up? && (n in s.net.servers ==> phase.Booting?)
    requires phase.Booting? ==> CurrentOf(st, n, phase.inst)
    ensures RegistryInv(s.net.servers, s.phase[n := phase], st)
  {
  }

  lemma OwnersAfterArrive(s: System, e: End, lost: bool)
    requires TesterInv(s)
    ensures OwnersInv(s.reqs + [NewRequest(s.net, e, lost)], s.store.owner)
  {
    var q := NewRequest(s.net, e, lost);
    assert q.starts > 0 ==> OwnedBy(s.store.owner, q.inst, q.name);
  }

  lemma TesterStep(s: System, e: Event)
    requires TesterInv(s) && Possible(s, e)
    ensures TesterInv(Do(s, e))
  {
    match e {
      case HandlerSave(r, data) => AppendKeepsTester(s, e, s.reqs[r].inst);
      case OtherSave(i, data) => AppendKeepsTester(s, e, i);
      case CopyOnShutdown(n) =>
        CopyKeepsStore(s.store, n);
        CopyLeavesOthers(s.store, n);
        RegistryAfterRestart(s, n, Do(s, e).store, Down);
      case Boot(n) => BootKeepsTester(s, n);
      case _ => NetworkStepKeepsTester(s, e);
    }
  }

  lemma BootKeepsTester(s: System, n: Name)
    requires TesterInv(s) && Possible(s, Boot(n))
    ensures TesterInv(Do(s, Boot(n)))
  {
    NewInstanceKeepsStore(s.store, n);
    CopyLeavesOthers(s.store, n);
    RegistryAfterRestart(s, n, NewInstance(s.store, n), Booting(|s.store.persister|));
    assert OwnersInv(s.reqs, s.store.owner + [n]);
  }

  lemma NetworkStepKeepsTester(s: System, e: Event)
    requires TesterInv(s) && Possible(s, e)
    requires !e.HandlerSave? && !e.OtherSave? && !e.CopyOnShutdown? && !e.Boot?
    ensures TesterInv(Do(s, e))
  {
    match e {
      case Arrive(e, lost) => OwnersAfterArrive(s, e, lost);
      case HandlerReturn(r, result) => OwnersAfterSet(s, r, Do(s, e).reqs[r]);
      case Receive(r) => OwnersAfterSet(s, r, Do(s, e).reqs[r]);
      case Poll(r) => OwnersAfterSet(s, r, Do(s, e).reqs[r]);
      case FinalCheck(r, fate) => OwnersAfterSet(s, r, Do(s, e).reqs[r]);
      case LateReply(r) => OwnersAfterSet(s, r, Do(s, e).reqs[r]);
      case _ => RegistryStep(s, e);
    }
  }

  /** A request's own progress changes neither its server nor its instance. */
  lemma OwnersAfterSet(s: System, r: nat, q: Request)
    requires TesterInv(s) && r < |s.reqs|
    requires q.inst == s.reqs[r].inst && q.name == s.reqs[r].name && q.starts == s.reqs[r].starts
    ensures TesterInv(SetReq(s, r, q))
  {
    assert OwnersInv(s.reqs[r := q], s.store.owner);
  }

  lemma RegistryStep(s: System, e: Event)
    requires TesterInv(s) && Possible(s, e)
    requires e.SetEnabled? || e.SetConnection? || e.Delete? || e.Register?
    ensures TesterInv(Do(s, e))
  {
    assert RegistryInv(Do(s, e).net.servers, Do(s, e).phase, s.store);
  }

  lemma AppendKeepsTester(s: System, e: Event, i: Inst)
    requires TesterInv(s) && Possible(s, e) && HasInstance(s.store, i)
    requires (e.OtherSave? && e.i == i) || (e.HandlerSave? && s.reqs[e.r].inst == i)
    ensures TesterInv(Do(s, e))
  {
    var st := Do(s, e).store;
    AppendKeepsStore(s.store, i, NextSave(s, i, e.data));
    forall m, j | CurrentOf(s.store, m, j) ensures CurrentOf(st, m, j) {
    }
    assert st.owner == s.store.owner;
  }

  // ---------- Durability ----------

  ghost predicate InHist(st: Store, p: Pid, x: Save) {
    p < |st.hist| && x in st.hist[p]
  }

  /** x is in instance i's persister. */
  ghost predicate Held(st: Store, i: Inst, x: Save) {
    i < |st.persister| && InHist(st, st.persister[i], x)
  }

  /** x is in the persister that a restart of n would copy, and in that of
      every instance of n from i on. */
  ghost predicate Durable(st: Store, n: Name, i: Inst, x: Save) {
    && n in st.saved && InHist(st, st.saved[n], x)
    && forall j | i <= j < |st.persister| && OwnedBy(st.owner, j, n) :: Held(st, j, x)
  }

  /** What a handler saved is in its instance's persister. */
  ghost predicate SavesInv(s: System) {
    forall r, x | 0 <= r < |s.reqs| && x in s.reqs[r].saves :: s.reqs[r].starts > 0 && Held(s.store, s.reqs[r].inst, x)
  }

  /** Histories only grow, so what is in them stays, careless starts or not. */
  lemma HeldStep(s: System, e: Event, i: Inst, x: Save)
    requires StoreInv(s.store) && Possible(s, e) && Held(s.store, i, x)
    ensures Held(Do(s, e).store, i, x)
  {
  }

  lemma DurableStep(s: System, e: Event, n: Name, i: Inst, x: Save)
    requires StoreInv(s.store) && Possible(s, e) && Durable(s.store, n, i, x)
    ensures Durable(Do(s, e).store, n, i, x)
  {
    var st, st' := s.store, Do(s, e).store;
    forall p | InHist(st, p, x) ensures InHist(st', p, x) {
    }
    forall j | i <= j < |st'.persister| && OwnedBy(st'.owner, j, n) ensures Held(st', j, x) {
      if j < |st.persister| {
        assert Held(st, j, x);
      } else {
        assert e.Boot? && e.n == n;
      }
    }
  }

  lemma SavesStep(s: System, e: Event)
    requires StoreInv(s.store) && RequestsInv(s) && SavesInv(s) && Possible(s, e)
    ensures SavesInv(Do(s, e))
  {
    var s' := Do(s, e);
    forall r, x | 0 <= r < |s'.reqs| && x in s'.reqs[r].saves
      ensures s'.reqs[r].starts > 0 && Held(s'.store, s'.reqs[r].inst, x)
    {
      assert r < |s.reqs| && RequestInv(s.reqs[r]);
      if x in s.reqs[r].saves {
        HeldStep(s, e, s.reqs[r].inst, x);
      }
    }
  }

  /** What holds in every run, careless starts included. */
  ghost predicate Inv(s: System) {
    RequestsInv(s) && TesterInv(s) && SavesInv(s)
  }

  lemma {:induction false} RunInv(run: seq<System>, events: seq<Event>, k: nat)
    requires IsRun(run, events) && k < |run|
    ensures Inv(run[k])
  {
    if k > 0 {
      RunInv(run, events, k - 1);
      RequestsStep(run[k - 1], events[k - 1]);
      TesterStep(run[k - 1], events[k - 1]);
      SavesStep(run[k - 1], events[k - 1]);
    }
  }

  /** From event k on, n is started only when it is down. */
  ghost predicate CarefulFrom(run: seq<System>, events: seq<Event>, n: Name, k: nat)
    requires |run| == |events| + 1
  {
    forall j | k <= j < |events| && events[j] == Boot(n) :: PhaseOf(run[j], n).Down?
  }

  /** Up to state k, n was started only when it was down. */
  ghost predicate CarefulUntil(run: seq<System>, events: seq<Event>, n: Name, k: nat)
    requires |run| == |events| + 1
  {
    forall j | 0 <= j < k && j < |events| && events[j] == Boot(n) :: PhaseOf(run[j], n).Down?
  }

  /** A server never started carelessly is registered only while it is up,
      whatever happens to the others. */
  lemma {:induction false} RegisteredIsUp(run: seq<System>, events: seq<Event>, n: Name, k: nat)
    requires IsRun(run, events) && k < |run| && CarefulUntil(run, events, n, k)
    ensures n in run[k].net.servers ==> PhaseOf(run[k], n).Up?
  {
    if k > 0 {
      RegisteredIsUp(run, events, n, k - 1);
      RunInv(run, events, k - 1);
      assert run[k] == Do(run[k - 1], events[k - 1]);
    }
  }

  /** The heart of the matter: a call that passes the final check while its
      server is up found its own instance registered and current, so nothing
      has been copied from the instance's persister yet. */
  lemma CheckIsDurable(s: System, r: nat, x: Save)
    requires Inv(s) && r < |s.reqs| && s.reqs[r].starts > 0 && !Dead(s, r)
    requires PhaseOf(s, s.reqs[r].name).Up? && Held(s.store, s.reqs[r].inst, x)
    ensures Durable(s.store, s.reqs[r].name, s.reqs[r].inst, x)
  {
    var q := s.reqs[r];
    assert CurrentOf(s.store, q.name, q.inst);
    assert Newest(s.store.owner, q.inst);
  }

  lemma DurableEvent(run: seq<System>, events: seq<Event>, k: nat, n: Name, i: Inst, x: Save)
    requires IsRun(run, events) && k < |events| && Durable(run[k].store, n, i, x)
    ensures Durable(run[k + 1].store, n, i, x)
  {
    var s, e := run[k], events[k];
    assert Possible(s, e) && run[k + 1] == Do(s, e);
    assert StoreInv(s.store) by {
      RunInv(run, events, k);
    }
    DurableStep(s, e, n, i, x);
  }

  lemma {:induction false} StaysDurable(run: seq<System>, events: seq<Event>, j: nat, k: nat, n: Name, i: Inst, x: Save)
    requires IsRun(run, events) && j <= k < |run| && Durable(run[j].store, n, i, x)
    ensures Durable(run[k].store, n, i, x)
  {
    if j < k {
      StaysDurable(run, events, j, k - 1, n, i, x);
      DurableEvent(run, events, k - 1, n, i, x);
    }
  }

  /** Acknowledged updates survive restarts. When a call passes its final check,
      all that is in its instance's persister, whoever saved it, is in the
      history of every later instance of that server at every later moment,
      provided only that no careless start of this server came before the
      check. */
  lemma AcknowledgedSavesSurvive(run: seq<System>, events: seq<Event>, j: nat, k: nat, r: nat, result: int, i: Inst, x: Save)
    requires IsRun(run, events) && j <= k < |run| && CheckedAlive(run[j], r, result)
    requires CarefulUntil(run, events, run[j].reqs[r].name, j)
    requires Held(run[j].store, run[j].reqs[r].inst, x)
    requires run[j].reqs[r].inst <= i && OwnedBy(run[k].store.owner, i, run[j].reqs[r].name)
    ensures Held(run[k].store, i, x)
  {
    RunInv(run, events, j);
    RunInv(run, events, k);
    var q := run[j].reqs[r];
    assert RequestInv(q);
    RegisteredIsUp(run, events, q.name, j);
    CheckIsDurable(run[j], r, x);
    StaysDurable(run, events, j, k, q.name, q.inst, x);
  }

  /** Every instance of n from the acknowledging one on has each save that a
      handler made for a call to n that passed. */
  ghost predicate Kept(s: System, n: Name) {
    forall r, i, x |
      0 <= r < |s.reqs| && s.reqs[r].passed && s.reqs[r].name == n && x in s.reqs[r].saves &&
      s.reqs[r].inst <= i && OwnedBy(s.store.owner, i, n) :: Held(s.store, i, x)
  }

  lemma HandlerSavesSurvive(run: seq<System>, events: seq<Event>, n: Name, k: nat)
    requires IsRun(run, events) && k < |run| && CarefulUntil(run, events, n, k)
    ensures Kept(run[k], n)
  {
    var s := run[k];
    forall r, i, x |
      0 <= r < |s.reqs| && s.reqs[r].passed && s.reqs[r].name == n && x in s.reqs[r].saves &&
      s.reqs[r].inst <= i && OwnedBy(s.store.owner, i, n)
      ensures Held(s.store, i, x)
    {
      var j := PassedWasAlive(run, events, k, r, s.reqs[r]);
      RunInv(run, events, j);
      assert x in run[j].reqs[r].saves;
      AcknowledgedSavesSurvive(run, events, j, k, r, s.reqs[r].handler.result, i, x);
    }
  }

  // ---------- Superseded instances ----------

  /** Where a save in instance i's persister may come from: i itself, or an
      older instance of the same name that had not been superseded. */
  ghost predicate Provenance(st: Store, i: Inst, x: Save) {
    && i < |st.owner| && i < |st.persister| && x.inst <= i && st.owner[x.inst] == st.owner[i]
    && (x.inst < i || IsCurrent(st, i) ==> !x.superseded)
  }

  /** Where a save that a restart would inherit may come from. */
  ghost predicate Inheritable(st: Store, n: Name, x: Save) {
    x.inst < |st.owner| && st.owner[x.inst] == n && !x.superseded
  }

  ghost predicate InOrder(h: seq<Save>, clock: nat) {
    && (forall j | 0 <= j < |h| :: h[j].stamp < clock)
    && (forall j, k | 0 <= j < k < |h| :: h[j].stamp < h[k].stamp)
  }

  ghost predicate ProvenanceInv(st: Store, clock: nat) {
    && (forall i, x | 0 <= i < |st.persister| && InHist(st, st.persister[i], x) :: Provenance(st, i, x))
    && (forall n, x | n in st.saved && InHist(st, st.saved[n], x) :: Inheritable(st, n, x))
    && (forall p | 0 <= p < |st.hist| :: InOrder(st.hist[p], clock))
  }

  lemma AppendKeepsProvenance(st: Store, clock: nat, i: Inst, y: Save)
    requires StoreInv(st) && ProvenanceInv(st, clock) && HasInstance(st, i)
    requires y.stamp == clock && y.inst == i && y.superseded == !IsCurrent(st, i)
    ensures ProvenanceInv(Append(st, i, y), clock + 1)
  {
    var st' := Append(st, i, y);
    forall j, x | 0 <= j < |st'.persister| && InHist(st', st'.persister[j], x) ensures Provenance(st', j, x) {
      if InHist(st, st.persister[j], x) {
        assert Provenance(st, j, x);
      }
    }
    forall n, x | n in st'.saved && InHist(st', st'.saved[n], x) ensures Inheritable(st', n, x) {
      if InHist(st, st.saved[n], x) {
        assert Inheritable(st, n, x);
      }
    }
    assert InOrder(st.hist[st.persister[i]], clock);
  }

  lemma CopyKeepsProvenance(st: Store, clock: nat, n: Name)
    requires StoreInv(st) && ProvenanceInv(st, clock)
    ensures HasCopy(st, n) && ProvenanceInv(Copied(st, n), clock)
  {
    var st' := Copied(st, n);
    forall j, x | 0 <= j < |st'.persister| && InHist(st', st'.persister[j], x) ensures Provenance(st', j, x) {
      assert InHist(st, st.persister[j], x);
      assert Provenance(st, j, x);
    }
    CopyInheritable(st, clock, n);
  }

  lemma CopyInheritable(st: Store, clock: nat, n: Name)
    requires StoreInv(st) && ProvenanceInv(st, clock)
    ensures HasCopy(st, n)
    ensures forall m, x | m in Copied(st, n).saved && InHist(Copied(st, n), Copied(st, n).saved[m], x) :: Inheritable(st, m, x)
    ensures forall p | 0 <= p < |Copied(st, n).hist| :: InOrder(Copied(st, n).hist[p], clock)
  {
    var st' := Copied(st, n);
    forall m, x | m in st'.saved && InHist(st', st'.saved[m], x) ensures Inheritable(st, m, x) {
      assert m in st.saved && InHist(st, st.saved[m], x);
    }
    forall p | 0 <= p < |st'.hist| ensures InOrder(st'.hist[p], clock) {
      if n in st.saved {
        assert InOrder(st.hist[st.saved[n]], clock);
      }
    }
  }

  lemma NewInstanceKeepsProvenance(st: Store, clock: nat, n: Name)
    requires StoreInv(st) && ProvenanceInv(st, clock)
    ensures HasCopy(st, n) && ProvenanceInv(NewInstance(st, n), clock)
  {
    CopyInheritable(st, clock, n);
    var copied, st' := Copied(st, n), NewInstance(st, n);
    forall m, x | m in st'.saved && InHist(st', st'.saved[m], x) ensures Inheritable(st', m, x) {
      assert InHist(copied, copied.saved[m], x);
      assert Inheritable(st, m, x);
    }
    forall j, x | 0 <= j < |st'.persister| && InHist(st', st'.persister[j], x) ensures Provenance(st', j, x) {
      if j < |st.persister| {
        assert InHist(st, st.persister[j], x);
        assert Provenance(st, j, x);
      } else {
        assert InHist(st', st'.saved[n], x);
        assert Inheritable(st', n, x);
      }
    }
  }

  lemma ProvenanceStep(s: System, e: Event)
    requires StoreInv(s.store) && ProvenanceInv(s.store, s.clock) && Possible(s, e)
    ensures ProvenanceInv(Do(s, e).store, Do(s, e).clock)
  {
    match e {
      case HandlerSave(r, data) =>
        var i := s.reqs[r].inst;
        AppendKeepsProvenance(s.store, s.clock, i, NextSave(s, i, data));
      case OtherSave(i, data) => AppendKeepsProvenance(s.store, s.clock, i, NextSave(s, i, data));
      case CopyOnShutdown(n) => CopyKeepsProvenance(s.store, s.clock, n);
      case Boot(n) => NewInstanceKeepsProvenance(s.store, s.clock, n);
      case _ =>
    }
  }

  lemma {:induction false} RunProvenance(run: seq<System>, events: seq<Event>, k: nat)
    requires IsRun(run, events) && k < |run|
    ensures ProvenanceInv(run[k].store, run[k].clock)
  {
    if k > 0 {
      RunInv(run, events, k - 1);
      RunProvenance(run, events, k - 1);
      ProvenanceStep(run[k - 1], events[k - 1]);
    }
  }

  /** In event j of the run, instance x.inst saved x; the persister that a
      restart of its server would have copied then was its own. */
  ghost predicate SavedWhileCurrent(run: seq<System>, events: seq<Event>, j: nat, x: Save) {
    && j < |events| && j < |run| && x.stamp == run[j].clock
    && ((events[j].OtherSave? && events[j].i == x.inst && events[j].data == x.data) ||
        (events[j].HandlerSave? && events[j].r < |run[j].reqs| && run[j].reqs[events[j].r].inst == x.inst &&
         events[j].data == x.data))
    && var st := run[j].store;
       && x.inst < |st.owner| && x.inst < |st.persister| && st.owner[x.inst] in st.saved
       && st.saved[st.owner[x.inst]] == st.persister[x.inst]
  }

  ghost predicate InSomeHist(st: Store, x: Save) {
    exists p :: InHist(st, p, x)
  }

  /** Only saving puts something new into a persister. */
  lemma NewInHist(s: System, e: Event, p: Pid, x: Save)
    requires StoreInv(s.store) && Possible(s, e) && InHist(Do(s, e).store, p, x)
    ensures InSomeHist(s.store, x) ||
      ((e.OtherSave? || e.HandlerSave?) && x == NextSave(s, if e.OtherSave? then e.i else s.reqs[e.r].inst, e.data))
  {
    if p < |s.store.hist| && x in s.store.hist[p] {
      assert InHist(s.store, p, x);
    } else if (e.CopyOnShutdown? || e.Boot?) && e.n in s.store.saved {
      assert InHist(s.store, s.store.saved[e.n], x);
    }
  }

  /** Every save in a persister that was not superseded when it was made goes
      back to the event that made it. */
  lemma {:induction false} SaveOrigin(run: seq<System>, events: seq<Event>, k: nat, p: Pid, x: Save) returns (j: nat)
    requires IsRun(run, events) && k < |run| && InHist(run[k].store, p, x) && !x.superseded
    ensures j < k && SavedWhileCurrent(run, events, j, x)
  {
    assert k > 0;
    RunInv(run, events, k - 1);
    j := k - 1;
    NewInHist(run[j], events[j], p, x);
    if InSomeHist(run[j].store, x) {
      var q :| InHist(run[j].store, q, x);
      j := SaveOrigin(run, events, j, q, x);
    }
  }

  /** Saves of a superseded instance never reach a later one: what instance i
      finds in its persister and did not save itself was saved, in this order,
      by older instances of the same server while they were current. */
  lemma SupersededSavesStayBehind(run: seq<System>, events: seq<Event>, k: nat, i: Inst, x: Save)
    requires IsRun(run, events) && k < |run| && i < |run[k].store.persister|
    requires InHist(run[k].store, run[k].store.persister[i], x) && x.inst != i
    ensures var st := run[k].store;
      && i < |st.owner| && x.inst < i && st.owner[x.inst] == st.owner[i]
      && InOrder(st.hist[st.persister[i]], run[k].clock)
    ensures exists j :: 0 <= j < k && SavedWhileCurrent(run, events, j, x)
  {
    RunProvenance(run, events, k);
    assert Provenance(run[k].store, i, x);
    var j := SaveOrigin(run, events, k, run[k].store.persister[i], x);
  }

  // ---------- When a start is safe ----------

  /** A run goes on from its last state s through events to s'. */
  ghost predicate Continues(s: System, events: seq<Event>, s': System)
    decreases |events|
  {
    if events == [] then s' == s
    else Possible(s, events[0]) && Continues(Do(s, events[0]), events[1..], s')
  }

  lemma Cons(s: System, e: Event, rest: seq<Event>, s': System)
    requires Possible(s, e) && Continues(Do(s, e), rest, s')
    ensures Continues(s, [e] + rest, s')
  {
    assert ([e] + rest)[1..] == rest;
  }

  lemma OneMoreEvent(run: seq<System>, events: seq<Event>, e: Event)
    requires IsRun(run, events) && Possible(run[|events|], e)
    ensures IsRun(run + [Do(run[|events|], e)], events + [e])
  {
    var run1, events1 := run + [Do(run[|events|], e)], events + [e];
    forall k | 0 <= k < |events1| ensures Possible(run1[k], events1[k]) && run1[k + 1] == Do(run1[k], events1[k]) {
      if k < |events| {
        assert run1[k] == run[k] && run1[k + 1] == run[k + 1] && events1[k] == events[k];
      }
    }
  }

  lemma {:induction false} Extend(run: seq<System>, events: seq<Event>, more: seq<Event>, s': System)
      returns (run': seq<System>)
    requires IsRun(run, events) && Continues(run[|events|], more, s')
    ensures IsRun(run', events + more) && run <= run' && run'[|events + more|] == s'
    decreases |more|
  {
    if more == [] {
      run' := run;
      assert events + more == events;
    } else {
      var run1, events1 := run + [Do(run[|events|], more[0])], events + [more[0]];
      OneMoreEvent(run, events, more[0]);
      run' := Extend(run1, events1, more[1..], s');
      assert events1 + more[1..] == events + more;
    }
  }

  /** An end that has not been made yet. */
  lemma FreshEnd(connections: map<End, Name>) returns (e: End)
    ensures e !in connections
  {
    e := Above(connections.Keys);
  }

  lemma {:induction false} Above(s: set<End>) returns (e: End)
    ensures forall d | d in s :: d < e
  {
    if s == {} {
      e := 0;
    } else {
      var d := Pick(s);
      var e' := Above(s - {d});
      e := if e' > d then e' else d + 1;
      forall x | x in s ensures x < e {
        assert x == d || x in s - {d};
      }
    }
  }

  /** A complete call through a new end e, served by instance i: its handler
      saves once and returns, and the call passes its final check. */
  function CallEvents(e: End, n: Name, r: nat): seq<Event> {
    [SetConnection(e, n)] + ([SetEnabled(e, true)] + ([Arrive(e, false)] + ServeEvents(r)))
  }

  function ServeEvents(r: nat): seq<Event> {
    [HandlerSave(r, 0)] + ([HandlerReturn(r, 0)] + ([Receive(r)] + ([FinalCheck(r, Sent)] + [])))
  }

  /** s with a request from e to n served by instance i. */
  function Answered(s: System, e: End, n: Name, i: Inst): System
    requires HasInstance(s.store, i)
  {
    var x := NextSave(s, i, 0);
    s.(store := Append(s.store, i, x), clock := s.clock + 1,
       reqs := s.reqs + [Request(e, n, i, Returned(0), Ended, 1, [Answer(0)], true, [x])])
  }

  function Called(s: System, e: End, n: Name, i: Inst): System
    requires HasInstance(s.store, i)
  {
    Answered(s.(net := s.net.(connections := s.net.connections[e := n], enabled := s.net.enabled[e := true])), e, n, i)
  }

  /** Request r of s, whose handler has just started, after it has been served. */
  function Served(s: System, r: nat): System
    requires r < |s.reqs| && HasInstance(s.store, s.reqs[r].inst)
  {
    var q := s.reqs[r];
    var x := NextSave(s, q.inst, 0);
    s.(store := Append(s.store, q.inst, x), clock := s.clock + 1,
       reqs := s.reqs[r := Request(q.end, q.name, q.inst, Returned(0), Ended, 1, [Answer(0)], true, [x])])
  }

  lemma ServePasses(s: System, r: nat)
    requires r < |s.reqs| && HasInstance(s.store, s.reqs[r].inst) && !Dead(s, r)
    requires s.reqs[r] == Request(s.reqs[r].end, s.reqs[r].name, s.reqs[r].inst, Executing, Waiting, 1, [], false, [])
    ensures Continues(s, ServeEvents(r), Served(s, r))
  {
    var s1 := Do(s, HandlerSave(r, 0));
    var s2 := Do(s1, HandlerReturn(r, 0));
    var s3 := Do(s2, Receive(r));
    var s4 := Do(s3, FinalCheck(r, Sent));
    assert s4.reqs[r] == Served(s, r).reqs[r];
    assert s4.reqs == Served(s, r).reqs;
    var last := [FinalCheck(r, Sent)] + [];
    Cons(s3, FinalCheck(r, Sent), [], s4);
    Cons(s2, Receive(r), last, s4);
    Cons(s1, HandlerReturn(r, 0), [Receive(r)] + last, s4);
    Cons(s, HandlerSave(r, 0), [HandlerReturn(r, 0)] + ([Receive(r)] + last), s4);
  }

  lemma ArrivalPasses(s: System, e: End, n: Name, i: Inst)
    requires ReadEndnameInfo(s.net, e) == Some((n, i)) && HasInstance(s.store, i)
    ensures Continues(s, [Arrive(e, false)] + ServeEvents(|s.reqs|), Answered(s, e, n, i))
  {
    var r, s1 := |s.reqs|, Do(s, Arrive(e, false));
    var q := Request(e, n, i, Executing, Waiting, 1, [], false, []);
    assert s1 == s.(reqs := s.reqs + [q]);
    ServePasses(s1, r);
    ReplaceLast(s.reqs, q, Request(e, n, i, Returned(0), Ended, 1, [Answer(0)], true, [NextSave(s, i, 0)]));
    assert Served(s1, r) == Answered(s, e, n, i);
    Cons(s, Arrive(e, false), ServeEvents(r), Answered(s, e, n, i));
  }

  lemma CallPasses(s: System, e: End, n: Name, i: Inst)
    requires e !in s.net.connections && n in s.net.servers && s.net.servers[n] == i && HasInstance(s.store, i)
    ensures Continues(s, CallEvents(e, n, |s.reqs|), Called(s, e, n, i))
  {
    var s1 := Do(s, SetConnection(e, n));
    var s2 := Do(s1, SetEnabled(e, true));
    var rest := [Arrive(e, false)] + ServeEvents(|s.reqs|);
    ArrivalPasses(s2, e, n, i);
    Cons(s1, SetEnabled(e, true), rest, Called(s, e, n, i));
    Cons(s, SetConnection(e, n), [SetEnabled(e, true)] + rest, Called(s, e, n, i));
  }

  /** The call's save is in no persister but its own instance's. */
  lemma CallSavesOnce(s: System, e: End, n: Name, i: Inst, p: Pid)
    requires ProvenanceInv(s.store, s.clock) && HasInstance(s.store, i)
    requires p < |s.store.hist| && p != s.store.persister[i]
    ensures !InHist(Called(s, e, n, i).store, p, NextSave(s, i, 0))
  {
    assert InOrder(s.store.hist[p], s.clock);
  }

  /** An acknowledged save that instance j lacks. */
  lemma NotKept(s: System, n: Name, r: nat, j: Inst, x: Save)
    requires r < |s.reqs| && s.reqs[r].passed && s.reqs[r].name == n && x in s.reqs[r].saves
    requires s.reqs[r].inst <= j && OwnedBy(s.store.owner, j, n) && !Held(s.store, j, x)
    ensures !Kept(s, n)
  {
  }

  /** After a careless start the old instance i is still registered, and the
      new one, j, has a persister of its own. */
  lemma StartedLive(s: System, n: Name)
    requires Inv(s) && ProvenanceInv(s.store, s.clock) && PhaseOf(s, n).Up?
    ensures n in s.net.servers && Possible(s, Boot(n))
    ensures var i, j, s1 := s.net.servers[n], |s.store.persister|, Do(s, Boot(n));
      && ProvenanceInv(s1.store, s1.clock) && n in s1.net.servers && s1.net.servers[n] == i
      && HasInstance(s1.store, i) && HasInstance(s1.store, j)
      && i < j && OwnedBy(s1.store.owner, j, n) && s1.store.persister[i] != s1.store.persister[j]
  {
    TesterStep(s, Boot(n));
    ProvenanceStep(s, Boot(n));
  }

  /** Started while it is up: the call that follows reaches the old instance and
      passes; the new instance lacks its save. */
  lemma CallAfterLiveStart(s: System, n: Name) returns (events: seq<Event>, s': System)
    requires Inv(s) && ProvenanceInv(s.store, s.clock) && PhaseOf(s, n).Up?
    ensures Continues(s, [Boot(n)] + events, s') && (forall e | e in events :: !e.Boot?) && !Kept(s', n)
  {
    StartedLive(s, n);
    var s1, j := Do(s, Boot(n)), |s.store.persister|;
    var e := FreshEnd(s1.net.connections);
    events, s' := LostCall(s1, n, e, s.net.servers[n], j);
    Cons(s, Boot(n), events, s');
  }

  /** A call to the registered instance i of n that leaves its save out of j. */
  lemma LostCall(s: System, n: Name, e: End, i: Inst, j: Inst) returns (events: seq<Event>, s': System)
    requires ProvenanceInv(s.store, s.clock) && e !in s.net.connections
    requires n in s.net.servers && s.net.servers[n] == i && HasInstance(s.store, i) && HasInstance(s.store, j)
    requires i <= j && OwnedBy(s.store.owner, j, n) && s.store.persister[i] != s.store.persister[j]
    ensures Continues(s, events, s') && (forall e | e in events :: !e.Boot?) && !Kept(s', n)
  {
    events, s' := CallEvents(e, n, |s.reqs|), Called(s, e, n, i);
    CallPasses(s, e, n, i);
    CallSavesOnce(s, e, n, i, s.store.persister[j]);
    CalledRequest(s, e, n, i);
    NotKept(s', n, |s.reqs|, j, NextSave(s, i, 0));
  }

  lemma CalledRequest(s: System, e: End, n: Name, i: Inst)
    requires HasInstance(s.store, i)
    ensures var s' := Called(s, e, n, i);
      && |s'.reqs| == |s.reqs| + 1 && s'.store.persister == s.store.persister && s'.store.owner == s.store.owner
      && var q := s'.reqs[|s.reqs|]; q.passed && q.name == n && q.inst == i && NextSave(s, i, 0) in q.saves
  {
    var q := Called(s, e, n, i).reqs[|s.reqs|];
    assert q.saves[0] == NextSave(s, i, 0);
  }

  /** A continuation of the run that starts n next, and again only when it is down. */
  ghost predicate Continuation(run: seq<System>, events: seq<Event>, n: Name, run': seq<System>, events': seq<Event>) {
    IsRun(run', events') && run <= run' && events + [Boot(n)] <= events' && CarefulFrom(run', events', n, |events| + 1)
  }

  /** Whatever happens after n is started here, its acknowledged saves are kept. */
  ghost predicate SafeStart(run: seq<System>, events: seq<Event>, n: Name) {
    forall run', events' | Continuation(run, events, n, run', events') :: Kept(run'[|events'|], n)
  }

  lemma IsContinuation(run: seq<System>, events: seq<Event>, n: Name, call: seq<Event>, run': seq<System>)
    requires |run| == |events| + 1 && run <= run' && IsRun(run', events + ([Boot(n)] + call))
    requires forall e | e in call :: !e.Boot?
    ensures Continuation(run, events, n, run', events + ([Boot(n)] + call))
  {
    var events' := events + ([Boot(n)] + call);
    assert events' == events + [Boot(n)] + call;
    forall j | |events| + 1 <= j < |events'| ensures events'[j] != Boot(n) {
      var e := call[j - |events| - 1];
      assert events'[j] == e && e in call;
    }
  }

  /** In any run, starting a server that is up allows an acknowledged save to be lost. */
  lemma StartingALiveServerLosesASave(run: seq<System>, events: seq<Event>, n: Name)
    requires IsRun(run, events) && PhaseOf(run[|events|], n).Up?
    ensures !SafeStart(run, events, n)
  {
    RunInv(run, events, |events|);
    RunProvenance(run, events, |events|);
    var call, s' := CallAfterLiveStart(run[|events|], n);
    var run' := Extend(run, events, [Boot(n)] + call, s');
    IsContinuation(run, events, n, call, run');
  }

  /** Starting n is safe for every continuation if and only if n is down. */
  lemma StartIsSafeExactlyWhenDown(run: seq<System>, events: seq<Event>, n: Name)
    requires IsRun(run, events) && CarefulUntil(run, events, n, |events|) && Possible(run[|events|], Boot(n))
    ensures SafeStart(run, events, n) <==> PhaseOf(run[|events|], n).Down?
  {
    if PhaseOf(run[|events|], n).Up? {
      StartingALiveServerLosesASave(run, events, n);
    } else {
      forall run', events' | Continuation(run, events, n, run', events') ensures Kept(run'[|events'|], n) {
        CarefulThroughout(run, events, n, run', events');
        HandlerSavesSurvive(run', events', n, |events'|);
      }
    }
  }

  /** There are such runs: any server comes up by being started once. */
  lemma ServersComeUp(n: Name) returns (run: seq<System>, events: seq<Event>)
    ensures IsRun(run, events) && CarefulUntil(run, events, n, |events|) && PhaseOf(run[|events|], n).Up?
  {
    var s1 := Do(INIT, Boot(n));
    events := [Boot(n), Register(n)];
    run := [INIT, s1, Do(s1, Register(n))];
  }

  lemma CarefulThroughout(run: seq<System>, events: seq<Event>, n: Name, run': seq<System>, events': seq<Event>)
    requires IsRun(run, events) && CarefulUntil(run, events, n, |events|) && PhaseOf(run[|events|], n).Down?
    requires Continuation(run, events, n, run', events')
    ensures CarefulUntil(run', events', n, |events'|)
  {
    forall j | 0 <= j < |events'| && events'[j] == Boot(n) ensures PhaseOf(run'[j], n).Down? {
      if j <= |events| {
        assert run'[j] == run[j];
        assert j < |events| ==> (events + [Boot(n)])[j] == events[j];
      }
    }
  }

  // ---------- Why ShutdownServer deletes before it copies ----------

  /** A shutdown and a start, step by step. */
  function ShutdownSteps(n: Name): seq<Event> {
    [Delete(n)] + [CopyOnShutdown(n)]
  }

  function StartSteps(n: Name): seq<Event> {
    [Boot(n)] + [Register(n)]
  }

  lemma OneStep(s: System, e: Event)
    requires Possible(s, e)
    ensures Continues(s, [e], Do(s, e))
  {
    assert [e][1..] == [];
  }

  /** In this order the steps of a shutdown can be taken whenever n is up or
      down, and those of a start whenever it is down. */
  lemma ShutdownCompletes(s: System, n: Name) returns (s': System)
    requires StoreInv(s.store) && (PhaseOf(s, n).Up? || PhaseOf(s, n).Down?)
    ensures Continues(s, ShutdownSteps(n), s') && PhaseOf(s', n).Down? && n !in s'.net.servers
  {
    var s1 := Do(s, Delete(n));
    s' := Do(s1, CopyOnShutdown(n));
    OneStep(s1, CopyOnShutdown(n));
    Cons(s, Delete(n), [CopyOnShutdown(n)], s');
  }

  lemma StartCompletes(s: System, n: Name) returns (s': System)
    requires StoreInv(s.store) && PhaseOf(s, n).Down?
    ensures Continues(s, StartSteps(n), s') && PhaseOf(s', n).Up?
    ensures n in s'.net.servers && s'.net.servers[n] == |s.store.persister|
  {
    var s1 := Do(s, Boot(n));
    s' := Do(s1, Register(n));
    OneStep(s1, Register(n));
    Cons(s, Boot(n), [Register(n)], s');
  }

  /** n's persister superseded while n is still registered. */
  function CopiedFirst(s: System, n: Name): System
    requires HasCopy(s.store, n)
  {
    s.(store := Copied(s.store, n))
  }

  /** The shutdown that began with CopiedFirst ends with the deletion. */
  function DeletedLast(s: System, n: Name): System
    requires Possible(s, Delete(n))
  {
    var s' := Do(s, Delete(n));
    s'.(phase := s'.phase[n := Down])
  }

  /** Were the persister copied before the server is deleted, a call could pass
      between the two and its save be missing from the next instance. */
  lemma CopyingFirstLosesASave(run: seq<System>, events: seq<Event>, n: Name) returns (call: seq<Event>, s': System)
    requires IsRun(run, events) && PhaseOf(run[|events|], n).Up?
    ensures HasCopy(run[|events|].store, n) && Continues(CopiedFirst(run[|events|], n), call, s')
    ensures Possible(s', Delete(n)) && Possible(DeletedLast(s', n), Boot(n))
    ensures !Kept(Do(DeletedLast(s', n), Boot(n)), n)
  {
    var s := run[|events|];
    RunInv(run, events, |events|);
    RunProvenance(run, events, |events|);
    CopyKeepsStore(s.store, n);
    CopyKeepsProvenance(s.store, s.clock, n);
    var i, p := s.net.servers[n], |s.store.hist|;
    var s1 := CopiedFirst(s, n);
    var e := FreshEnd(s1.net.connections);
    CallPasses(s1, e, n, i);
    call, s' := CallEvents(e, n, |s1.reqs|), Called(s1, e, n, i);
    CallSavesOnce(s1, e, n, i, p);
    var end := Do(DeletedLast(s', n), Boot(n));
    NotKept(end, n, |s1.reqs|, |s.store.persister|, NextSave(s1, i, 0));
  }
}
