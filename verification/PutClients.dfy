/** Clients that overwrite one key under its version number, and the checker
    that compares the final version with what they report. */
module PutClients {
  import opened KvModel
  import C = AppendClients

  type ClntRes = C.ClntRes

  /** The stored value: absent, or who wrote it and on top of which version. */
  datatype EntryV = Absent | EntryV(id: int, v: Version)

  type Server = State<EntryV>

  // ---------- The checker ----------

  function SumOk(rs: seq<ClntRes>): nat {
    if rs == [] then 0 else SumOk(rs[..|rs| - 1]) + rs[|rs| - 1].nok
  }

  function SumMaybe(rs: seq<ClntRes>): nat {
    if rs == [] then 0 else SumMaybe(rs[..|rs| - 1]) + rs[|rs| - 1].nmaybe
  }

  /** The verdict on a final read of the key against the accumulated counts. */
  predicate Accepts(server: Server, nok: nat, nmaybe: nat, reliable: bool) {
    && server.State? && server.value.EntryV?
    && (if reliable then server.version == nok else server.version <= nok + nmaybe)
  }

  /** The counts that the caller keeps from one round to the next. */
  class Tally {
    var nok: nat
    var nmaybe: nat

    constructor ()
      ensures nok == 0 && nmaybe == 0
    {
      nok, nmaybe := 0, 0;
    }

    /** false stands for a failed test; a key that cannot be read fails it
        before anything is added. */
    method CheckPutConcurrent(server: Server, rs: seq<ClntRes>, reliable: bool) returns (pass: bool)
      modifies this
      ensures var read := server.State? && server.value.EntryV?;
        && nok == old(nok) + (if read then SumOk(rs) else 0)
        && nmaybe == old(nmaybe) + (if read then SumMaybe(rs) else 0)
      ensures pass == Accepts(server, nok, nmaybe, reliable)
      ensures pass <==>
        && server.State? && server.value.EntryV?
        && (reliable ==> server.version == nok)
        && (!reliable ==> server.version <= nok + nmaybe)
    {
      if server.Invalid? || server.value.Absent? {
        return false;
      }
      for i := 0 to |rs|
        invariant nok == old(nok) + SumOk(rs[..i]) && nmaybe == old(nmaybe) + SumMaybe(rs[..i])
      {
        nok := nok + rs[i].nok;
        nmaybe := nmaybe + rs[i].nmaybe;
        assert rs[..i + 1][..i] == rs[..i];
      }
      assert rs[..|rs|] == rs;
      if reliable {
        pass := server.version == nok;
      } else {
        pass := !(server.version > nok + nmaybe);
      }
    }
  }

  /** A version that more puts must have made than the clients can account for
      is refused, in either mode; in reliable mode one that fewer made is, too. */
  lemma UnaccountedPutsAreRefused(server: Server, nok: nat, nmaybe: nat, reliable: bool)
    requires server.State?
    ensures server.version > nok + nmaybe ==> !Accepts(server, nok, nmaybe, reliable)
    ensures reliable && server.version < nok ==> !Accepts(server, nok, nmaybe, reliable)
  {
  }

  // ---------- The clients ----------

  /** Where a client is: at the select statement, about to put, about to read
      after a put that returned err, finished, or in a failed assertion. */
  datatype Pc = Select | Putting | Getting(err: Err) | Stopped | Broken

  /** ver is the version the client believes the key to have. */
  datatype Client = Client(ver: Version, nok: nat, nmay: nat, pc: Pc)

  /** okLog lists the versions that puts answered with OK carried. */
  datatype System = System(server: Server, clients: seq<Client>, okLog: seq<Version>)

  /** A value that fits its version: absent exactly at version 0. */
  ghost predicate Fits(server: Server) {
    && server.State?
    && (server.version == 0 <==> server.value.Absent?)
    && (server.value.EntryV? ==> server.value.v + 1 == server.version)
  }

  ghost predicate Init(s: System, n: nat) {
    && Fits(s.server) && s.okLog == [] && |s.clients| == n
    && forall c | 0 <= c < n :: s.clients[c] == Client(0, 0, 0, Select)
  }

  /** One action of client c; Put and Get act on the server atomically. */
  ghost predicate ClientStep(s: System, s': System, c: nat)
    requires c < |s.clients|
  {
    var me := s.clients[c];
    match me.pc
    case Select =>
      exists pc | pc == Putting || pc == Stopped :: s' == s.(clients := s.clients[c := me.(pc := pc)])
    case Putting =>
      exists err :: PutStep(s, s', c, err)
    case Getting(err) =>
      && s.server.State?
      && Step(s.server, Input(0, "k", Absent, 0), Output(s.server.value, s.server.version, OK)) == (true, s.server)
      && s' == s.(clients := s.clients[c := AfterGet(me, c, s.server.value, s.server.version)])
    case Stopped => false
    case Broken => false
  }

  ghost predicate PutStep(s: System, s': System, c: nat, err: Err)
    requires c < |s.clients|
  {
    var me := s.clients[c];
    var (ok, server) := Step(s.server, Input(1, "k", EntryV(c, me.ver), me.ver), Output(Absent, 0, err));
    ok && s' == System(server, s.clients[c := AfterPut(me, err)], s.okLog + if err == OK then [me.ver] else [])
  }

  function AfterPut(me: Client, err: Err): Client {
    if err == OK || err == ErrVersion || err == ErrMaybe then me.(pc := Getting(err))
    else me.(pc := Broken)
  }

  /** The read after a put: the client fails on an unreadable value, or on a
      value it did not write at the version its own put made. */
  function AfterGet(me: Client, c: int, value: EntryV, ver: Version): Client
    requires me.pc.Getting?
  {
    var err := me.pc.err;
    if value.Absent? then me.(pc := Broken)
    else if err == OK && ver == KvModel.Next(me.ver) && value.id != c && value.v != me.ver then me.(pc := Broken)
    else if err == OK then Client(ver, me.nok + 1, me.nmay, Select)
    else if err == ErrMaybe then Client(ver, me.nok, me.nmay + 1, Select)
    else Client(ver, me.nok, me.nmay, Putting)
  }

  /** A client's action fails it exactly when its put reports another error, or
      when the key cannot be read, or when, right after its own successful put,
      it finds an entry with both another writer and another version. */
  lemma FailsExactly(s: System, s': System, c: nat, err: Err)
    requires c < |s.clients|
    ensures s.clients[c].pc == Putting && PutStep(s, s', c, err) ==>
      (s'.clients[c].pc == Broken <==> err != OK && err != ErrVersion && err != ErrMaybe)
    ensures s.clients[c].pc.Getting? && ClientStep(s, s', c) ==>
      (s'.clients[c].pc == Broken <==>
        || s.server.value == Absent
        || (s.clients[c].pc.err == OK && s.server.version == (s.clients[c].ver + 1) % 0x1_0000_0000_0000_0000 &&
            s.server.value.id != c && s.server.value.v != s.clients[c].ver))
  {
  }

  /** After its read a client that has not failed believes the version it read,
      counts the put as what it reported, and retries one that lost the race. */
  lemma GetOutcome(s: System, s': System, c: nat)
    requires c < |s.clients| && s.clients[c].pc.Getting? && ClientStep(s, s', c) && s'.clients[c].pc != Broken
    ensures s'.server == s.server
    ensures var me, me' := s.clients[c], s'.clients[c];
      && me'.ver == s.server.version
      && me'.nok == me.nok + (if me.pc.err == OK then 1 else 0)
      && me'.nmay == me.nmay + (if me.pc.err == ErrMaybe then 1 else 0)
      && me'.pc == if me.pc.err == OK || me.pc.err == ErrMaybe then Select else Putting
  {
  }

  ghost predicate Next(s: System, s': System) {
    exists c: nat | c < |s.clients| :: ClientStep(s, s', c)
  }

  ghost predicate IsRun(run: seq<System>, n: nat) {
    run != [] && Init(run[0], n) && forall k | 0 <= k < |run| - 1 :: Next(run[k], run[k + 1])
  }

  // ---------- The invariant ----------

  /** Successful puts of a client, counting one not yet read back. */
  function Oks(me: Client): nat {
    me.nok + if me.pc == Getting(OK) then 1 else 0
  }

  function Maybes(me: Client): nat {
    me.nmay + if me.pc == Getting(ErrMaybe) then 1 else 0
  }

  function TotalOks(clients: seq<Client>): nat {
    if clients == [] then 0 else Oks(clients[0]) + TotalOks(clients[1..])
  }

  function TotalMaybes(clients: seq<Client>): nat {
    if clients == [] then 0 else Maybes(clients[0]) + TotalMaybes(clients[1..])
  }

  lemma {:induction false} TotalsUpdate(clients: seq<Client>, c: nat, x: Client)
    requires c < |clients|
    ensures TotalOks(clients[c := x]) == TotalOks(clients) - Oks(clients[c]) + Oks(x)
    ensures TotalMaybes(clients[c := x]) == TotalMaybes(clients) - Maybes(clients[c]) + Maybes(x)
  {
    if c > 0 {
      assert clients[c := x][1..] == clients[1..][c - 1 := x];
      TotalsUpdate(clients[1..], c - 1, x);
    } else {
      assert clients[c := x][1..] == clients[1..];
    }
  }

  /** What relates client c to the server. After its own successful put the
      client will find its own value, unless the version has moved on. */
  ghost predicate ClientInv(server: Server, me: Client, c: nat)
    requires server.State?
  {
    && me.pc != Broken
    && (server.version == 0 ==> me.ver == 0 && !me.pc.Getting? && me.nok == me.nmay == 0)
    && (me.pc.Getting? ==> me.pc.err == OK || me.pc.err == ErrVersion || me.pc.err == ErrMaybe)
    && (me.pc == Getting(OK) ==> me.ver < server.version)
    && (me.pc == Getting(OK) && server.version == me.ver + 1 ==> server.value == EntryV(c, me.ver))
  }

  ghost predicate Inv(s: System, n: nat, v0: nat, steps: nat) {
    && |s.clients| == n
    && Fits(s.server) && v0 <= s.server.version <= v0 + steps
    && (forall c | 0 <= c < n :: ClientInv(s.server, s.clients[c], c))
    && (forall i | 0 <= i < |s.okLog| :: s.okLog[i] < s.server.version)
    && (forall i, j | 0 <= i < j < |s.okLog| :: s.okLog[i] != s.okLog[j])
    && |s.okLog| == TotalOks(s.clients)
    && TotalOks(s.clients) <= s.server.version - v0 <= TotalOks(s.clients) + TotalMaybes(s.clients)
  }

  lemma PutKeepsInv(s: System, s': System, n: nat, v0: nat, steps: nat, c: nat, err: Err)
    requires Inv(s, n, v0, steps) && v0 + steps + 1 < VERSION_LIMIT
    requires c < n && s.clients[c].pc == Putting && PutStep(s, s', c, err)
    ensures Inv(s', n, v0, steps + 1)
  {
    var me := s.clients[c];
    TotalsUpdate(s.clients, c, AfterPut(me, err));
    assert ClientInv(s.server, me, c);
    if s.server.version == me.ver {
      assert s'.server == State(EntryV(c, me.ver), me.ver + 1);
    }
    forall d | 0 <= d < n ensures ClientInv(s'.server, s'.clients[d], d) {
      assert ClientInv(s.server, s.clients[d], d);
    }
  }

  /** Any action but a put leaves the server alone. */
  lemma LocalStepKeepsInv(s: System, s': System, n: nat, v0: nat, steps: nat, c: nat)
    requires Inv(s, n, v0, steps) && c < n
    requires |s'.clients| == n && s' == s.(clients := s.clients[c := s'.clients[c]])
    requires ClientInv(s.server, s'.clients[c], c)
    requires Oks(s'.clients[c]) == Oks(s.clients[c]) && Maybes(s'.clients[c]) == Maybes(s.clients[c])
    ensures Inv(s', n, v0, steps + 1)
  {
    TotalsUpdate(s.clients, c, s'.clients[c]);
  }

  lemma StepKeepsInv(s: System, s': System, n: nat, v0: nat, steps: nat)
    requires Inv(s, n, v0, steps) && v0 + steps + 1 < VERSION_LIMIT && Next(s, s')
    ensures Inv(s', n, v0, steps + 1)
  {
    var c: nat :| c < |s.clients| && ClientStep(s, s', c);
    var me := s.clients[c];
    assert ClientInv(s.server, me, c);
    if me.pc == Putting {
      var err :| PutStep(s, s', c, err);
      PutKeepsInv(s, s', n, v0, steps, c, err);
    } else {
      LocalStepKeepsInv(s, s', n, v0, steps, c);
    }
  }

  lemma {:induction false} NoTotals(clients: seq<Client>)
    requires forall c | 0 <= c < |clients| :: Oks(clients[c]) == Maybes(clients[c]) == 0
    ensures TotalOks(clients) == TotalMaybes(clients) == 0
  {
    if clients != [] {
      NoTotals(clients[1..]);
    }
  }

  lemma {:induction false} RunInv(run: seq<System>, n: nat, k: nat)
    requires IsRun(run, n) && k < |run|
    requires run[0].server.version + |run| <= VERSION_LIMIT
    ensures Inv(run[k], n, run[0].server.version, k)
  {
    if k == 0 {
      NoTotals(run[0].clients);
    } else {
      RunInv(run, n, k - 1);
      StepKeepsInv(run[k - 1], run[k], n, run[0].server.version, k - 1);
    }
  }

  // ---------- What every run guarantees ----------

  ghost predicate AllStopped(s: System) {
    forall c | 0 <= c < |s.clients| :: s.clients[c].pc == Stopped
  }

  function Results(clients: seq<Client>): seq<ClntRes> {
    seq(|clients|, c requires 0 <= c < |clients| => C.ClntRes(clients[c].nok, clients[c].nmay))
  }

  /** In every interleaving no client's assertion fails, no two puts answered
      with OK carried the same version, and a client that sees the version its
      own put made sees its own value. */
  lemma NoAssertionFails(run: seq<System>, n: nat, k: nat, c: nat)
    requires IsRun(run, n) && k < |run| && c < n
    requires run[0].server.version + |run| <= VERSION_LIMIT
    ensures var s := run[k];
      && |s.clients| == n && s.clients[c].pc != Broken
      && (forall i, j | 0 <= i < j < |s.okLog| :: s.okLog[i] != s.okLog[j])
      && (s.clients[c].pc == Getting(OK) && s.server.State? && s.server.version == s.clients[c].ver + 1 ==>
            s.server.value == EntryV(c, s.clients[c].ver))
  {
    RunInv(run, n, k);
    assert ClientInv(run[k].server, run[k].clients[c], c);
  }

  lemma {:induction false} TotalsAreSums(clients: seq<Client>)
    requires forall c | 0 <= c < |clients| :: clients[c].pc == Stopped
    ensures TotalOks(clients) == SumOk(Results(clients)) && TotalMaybes(clients) == SumMaybe(Results(clients))
  {
    var rs := Results(clients);
    if clients != [] {
      var n := |clients| - 1;
      TotalsAreSums(clients[..n]);
      assert Results(clients[..n]) == rs[..n];
      TotalsAppend(clients[..n], clients[n]);
      assert clients[..n] + [clients[n]] == clients;
    }
  }

  lemma {:induction false} TotalsAppend(clients: seq<Client>, x: Client)
    ensures TotalOks(clients + [x]) == TotalOks(clients) + Oks(x)
    ensures TotalMaybes(clients + [x]) == TotalMaybes(clients) + Maybes(x)
  {
    if clients == [] {
      assert [x][1..] == [];
    } else {
      assert (clients + [x])[1..] == clients[1..] + [x];
      TotalsAppend(clients[1..], x);
    }
  }

  /** A round in which every client has stopped raises the version by at least
      the OK puts and at most the OK and uncertain puts together. */
  lemma RoundBounds(run: seq<System>, n: nat)
    requires IsRun(run, n) && AllStopped(run[|run| - 1])
    requires run[0].server.version + |run| <= VERSION_LIMIT
    ensures var v0, s := run[0].server.version, run[|run| - 1];
      var rs := Results(s.clients);
      && Fits(s.server)
      && SumOk(rs) <= s.server.version - v0 <= SumOk(rs) + SumMaybe(rs)
      && (s.server.version == 0 ==> SumOk(rs) == SumMaybe(rs) == 0)
  {
    var s := run[|run| - 1];
    RunInv(run, n, |run| - 1);
    TotalsAreSums(s.clients);
    if s.server.version == 0 {
      forall c | 0 <= c < n ensures Oks(s.clients[c]) == Maybes(s.clients[c]) == 0 {
        assert ClientInv(s.server, s.clients[c], c);
      }
      NoTotals(s.clients);
    }
  }

  // ---------- Rounds on the same key ----------

  /** Rounds of clients, each starting where the last one left the key, with
      fewer than 2^64 actions in all. */
  ghost predicate AreRounds(rounds: seq<seq<System>>, n: nat) {
    && (forall r | 0 <= r < |rounds| :: IsRun(rounds[r], n) && AllStopped(rounds[r][|rounds[r]| - 1]))
    && (forall r | 0 <= r < |rounds| - 1 :: rounds[r + 1][0].server == rounds[r][|rounds[r]| - 1].server)
    && (forall r | 0 <= r < |rounds| :: rounds[r][0].server.State? &&
          rounds[r][0].server.version + |rounds[r]| <= VERSION_LIMIT)
    && (rounds != [] ==> rounds[0][0].server == State(Absent, 0))
  }

  ghost function OksUpTo(rounds: seq<seq<System>>, r: nat): nat
    requires r <= |rounds| && forall i | 0 <= i < |rounds| :: rounds[i] != []
  {
    if r == 0 then 0
    else OksUpTo(rounds, r - 1) + SumOk(Results(rounds[r - 1][|rounds[r - 1]| - 1].clients))
  }

  ghost function MaybesUpTo(rounds: seq<seq<System>>, r: nat): nat
    requires r <= |rounds| && forall i | 0 <= i < |rounds| :: rounds[i] != []
  {
    if r == 0 then 0
    else MaybesUpTo(rounds, r - 1) + SumMaybe(Results(rounds[r - 1][|rounds[r - 1]| - 1].clients))
  }

  /** After round r the version lies between the OK count and the OK and
      uncertain counts of all rounds so far. */
  lemma {:induction false} RoundsBounds(rounds: seq<seq<System>>, n: nat, r: nat)
    requires AreRounds(rounds, n) && r < |rounds|
    ensures var server := rounds[r][|rounds[r]| - 1].server;
      && Fits(server)
      && OksUpTo(rounds, r + 1) <= server.version <= OksUpTo(rounds, r + 1) + MaybesUpTo(rounds, r + 1)
      && (server.version == 0 ==> OksUpTo(rounds, r + 1) == MaybesUpTo(rounds, r + 1) == 0)
  {
    RoundBounds(rounds[r], n);
    if r > 0 {
      RoundsBounds(rounds, n, r - 1);
      assert rounds[r - 1 + 1][0].server == rounds[r - 1][|rounds[r - 1]| - 1].server;
    }
  }

  /** After any round the checker accepts if and only if some put has completed
      by then (otherwise it cannot read the key), provided that `reliable` is
      claimed only when no put was uncertain. */
  lemma ChecksPass(rounds: seq<seq<System>>, n: nat, r: nat, reliable: bool)
    requires AreRounds(rounds, n) && r < |rounds|
    requires reliable ==> MaybesUpTo(rounds, r + 1) == 0
    ensures var server := rounds[r][|rounds[r]| - 1].server;
      var oks, maybes := OksUpTo(rounds, r + 1), MaybesUpTo(rounds, r + 1);
      Accepts(server, oks, maybes, reliable) <==> oks + maybes > 0
  {
    RoundsBounds(rounds, n, r);
  }
}
