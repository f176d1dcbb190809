/** Clients that append to one shared list by reading it and writing it back,
    and the checker that inspects the list at the end. */
module AppendClients {
  import opened KvModel
  import opened Collections

  datatype Entry = Entry(id: int, n: int)
  datatype ClntRes = ClntRes(nok: nat, nmaybe: nat)

  type EntryList = seq<Entry>

  // ---------- The checker ----------

  /** The iteration numbers of client c, in list order. */
  function Ns(es: EntryList, c: int): seq<int> {
    if es == [] then []
    else
      var e := es[|es| - 1];
      Ns(es[..|es| - 1], c) + if e.id == c then [e.n] else []
  }

  function Ids(es: EntryList): set<int> {
    set e | e in es :: e.id
  }

  /** The next iteration number to expect after ns. */
  function NextN(ns: seq<int>): int {
    if ns == [] then 0 else ns[|ns| - 1] + 1
  }

  /** No number repeats or goes back, and none is negative. */
  ghost predicate Increasing(ns: seq<int>) {
    && (ns != [] ==> 0 <= ns[0])
    && forall i, j | 0 <= i < j < |ns| :: ns[i] < ns[j]
  }

  /** int(ver): the conversion of a 64-bit unsigned to a signed number. */
  function AsInt(v: Version): int {
    if v < 0x8000_0000_0000_0000 then v else v - VERSION_LIMIT
  }

  /** What the checker demands: each client's numbers increase, it skipped no
      more numbers than it had uncertain puts, it claims no more than it did,
      and the version counts the appends. */
  ghost predicate Accepts(es: EntryList, nclnt: nat, rs: seq<ClntRes>, ver: Version) {
    && Orderly(es)
    && |es| + 1 == AsInt(ver)
    && (forall c | 0 <= c < nclnt || c in Ids(es) :: ClientFits(es, rs, c))
  }

  /** Every client's numbers increase. */
  ghost predicate Orderly(es: EntryList) {
    forall c :: Increasing(Ns(es, c))
  }

  ghost predicate ClientFits(es: EntryList, rs: seq<ClntRes>, c: int) {
    && 0 <= c < |rs|
    && NextN(Ns(es, c)) - |Ns(es, c)| <= rs[c].nmaybe
    && NextN(Ns(es, c)) <= rs[c].nok + rs[c].nmaybe
  }

  function Default(m: map<int, int>, c: int): int {
    if c in m then m[c] else 0
  }

  /** What the checker's two maps say of client c after it has read es. */
  ghost predicate TalliedFor(es: EntryList, wanted: map<int, int>, skipped: map<int, int>, c: int) {
    && Increasing(Ns(es, c))
    && Default(wanted, c) == NextN(Ns(es, c))
    && Default(skipped, c) == NextN(Ns(es, c)) - |Ns(es, c)|
  }

  ghost predicate Tallied(es: EntryList, nclnt: nat, wanted: map<int, int>, skipped: map<int, int>) {
    && (forall c :: TalliedFor(es, wanted, skipped, c))
    && (forall c :: c in wanted <==> 0 <= c < nclnt || c in Ids(es))
  }

  lemma IncreasingAppend(ns: seq<int>, x: int)
    requires Increasing(ns)
    ensures Increasing(ns + [x]) <==> NextN(ns) <= x
  {
    if Increasing(ns + [x]) && ns != [] {
      var r := ns + [x];
      assert r[|ns| - 1] < r[|ns|];
    }
  }

  lemma NsAppend(es: EntryList, e: Entry)
    ensures forall c :: Ns(es + [e], c) == if e.id == c then Ns(es, c) + [e.n] else Ns(es, c)
    ensures Ids(es + [e]) == Ids(es) + {e.id}
  {
    assert (es + [e])[..|es|] == es;
    forall x ensures x in es + [e] <==> x in es || x == e {
    }
  }

  /** Reading one more entry whose number is the wanted one or a later one. */
  lemma TallyOneMore(es: EntryList, nclnt: nat, wanted: map<int, int>, skipped: map<int, int>, e: Entry, skipped': map<int, int>)
    requires Tallied(es, nclnt, wanted, skipped) && Default(wanted, e.id) <= e.n
    requires forall c :: Default(skipped', c) == Default(skipped, c) + (if c == e.id then e.n - Default(wanted, c) else 0)
    ensures Tallied(es + [e], nclnt, wanted[e.id := e.n + 1], skipped')
  {
    NsAppend(es, e);
    var es', wanted' := es + [e], wanted[e.id := e.n + 1];
    forall c ensures TalliedFor(es', wanted', skipped', c) {
      TallyOneMoreFor(es, wanted, skipped, e, wanted', skipped', c);
    }
  }

  lemma TallyOneMoreFor(es: EntryList, wanted: map<int, int>, skipped: map<int, int>, e: Entry,
                        wanted': map<int, int>, skipped': map<int, int>, c: int)
    requires TalliedFor(es, wanted, skipped, c) && (c == e.id ==> Default(wanted, c) <= e.n)
    requires wanted' == wanted[e.id := e.n + 1]
    requires Default(skipped', c) == Default(skipped, c) + (if c == e.id then e.n - Default(wanted, c) else 0)
    ensures TalliedFor(es + [e], wanted', skipped', c)
  {
    NsAppend(es, e);
    if c == e.id {
      IncreasingAppend(Ns(es, c), e.n);
    }
  }

  lemma StaleEntry(es: EntryList, more: EntryList, e: Entry)
    requires Increasing(Ns(es, e.id)) && NextN(Ns(es, e.id)) > e.n
    ensures !Orderly(es + [e] + more)
  {
    NsAppend(es, e);
    IncreasingAppend(Ns(es, e.id), e.n);
    OnceBadAlwaysBad(es + [e], more, e.id);
  }

  lemma {:induction false} OnceBadAlwaysBad(es: EntryList, more: EntryList, c: int)
    requires !Increasing(Ns(es, c))
    ensures !Increasing(Ns(es + more, c))
  {
    if more == [] {
      assert es + more == es;
    } else {
      var front, e := more[..|more| - 1], more[|more| - 1];
      OnceBadAlwaysBad(es, front, c);
      assert es + more == (es + front) + [e];
      NsAppend(es + front, e);
      var ns := Ns(es + front, c);
      assert forall i | 0 <= i < |ns| :: Ns(es + more, c)[i] == ns[i];
    }
  }

  /** One round of the checker's loop, after the entries es. */
  method ReadEntry(ghost es: EntryList, ghost nclnt: nat, e: Entry, wanted0: map<int, int>, skipped0: map<int, int>)
      returns (stale: bool, wanted: map<int, int>, skipped: map<int, int>)
    requires Tallied(es, nclnt, wanted0, skipped0)
    ensures Increasing(Ns(es, e.id)) && (stale <==> NextN(Ns(es, e.id)) > e.n)
    ensures !stale ==> Tallied(es + [e], nclnt, wanted, skipped)
  {
    wanted, skipped := wanted0, skipped0;
    var x := Default(wanted, e.id);
    assert TalliedFor(es, wanted, skipped, e.id);
    if x > e.n {
      return true, wanted, skipped;
    }
    if x == e.n {
      wanted := wanted[e.id := x + 1];
    } else {
      var s := e.n - x;
      wanted := wanted[e.id := e.n + 1];
      skipped := skipped[e.id := Default(skipped, e.id) + s];
    }
    TallyOneMore(es, nclnt, wanted0, skipped0, e, skipped);
    stale := false;
  }

  /** The loop over the entries; it stops at one that is not later than its
      client's entries before it. */
  method ReadEntries(es: EntryList, nclnt: nat) returns (stale: bool, wanted: map<int, int>, skipped: map<int, int>)
    ensures stale ==> !Orderly(es)
    ensures !stale ==> Tallied(es, nclnt, wanted, skipped)
  {
    wanted, skipped := Zeros(nclnt);
    for k := 0 to |es|
      invariant Tallied(es[..k], nclnt, wanted, skipped)
    {
      stale, wanted, skipped := ReadEntry(es[..k], nclnt, es[k], wanted, skipped);
      if stale {
        StaleEntry(es[..k], es[k + 1..], es[k]);
        Around(es, k);
        return;
      }
      TakeOneMore(es, k);
    }
    assert es[..|es|] == es;
    stale := false;
  }

  /** false stands for a failed test (or an index panic on an unknown client). */
  method CheckAppends(es: EntryList, nclnt: nat, rs: seq<ClntRes>, ver: Version) returns (pass: bool)
    ensures pass <==> Accepts(es, nclnt, rs, ver)
    ensures pass <==> Acceptable(es, nclnt, rs, ver)
  {
    AcceptsMeans(es, nclnt, rs, ver);
    var stale, wanted, skipped := ReadEntries(es, nclnt);
    if stale || |es| + 1 != AsInt(ver) {
      return false;
    }
    pass := CheckTallies(es, nclnt, wanted, skipped, rs);
    TalliesDecide(es, nclnt, wanted, skipped, rs);
  }

  lemma TalliesDecide(es: EntryList, nclnt: nat, wanted: map<int, int>, skipped: map<int, int>, rs: seq<ClntRes>)
    requires Tallied(es, nclnt, wanted, skipped)
    ensures Orderly(es)
    ensures (forall c | c in wanted :: ClientFits(es, rs, c)) <==>
      (forall c | 0 <= c < nclnt || c in Ids(es) :: ClientFits(es, rs, c))
  {
    forall c ensures Increasing(Ns(es, c)) {
      assert TalliedFor(es, wanted, skipped, c);
    }
  }

  method Zeros(nclnt: nat) returns (wanted: map<int, int>, skipped: map<int, int>)
    ensures Tallied([], nclnt, wanted, skipped)
  {
    wanted, skipped := map[], map[];
    for i := 0 to nclnt
      invariant forall c :: c in wanted <==> 0 <= c < i
      invariant forall c :: TalliedFor([], wanted, skipped, c)
    {
      ghost var wanted0, skipped0 := wanted, skipped;
      wanted := wanted[i := 0];
      skipped := skipped[i := 0];
      forall c ensures TalliedFor([], wanted, skipped, c) {
        assert TalliedFor([], wanted0, skipped0, c);
      }
    }
  }

  method CheckTallies(ghost es: EntryList, ghost nclnt: nat, wanted: map<int, int>, skipped: map<int, int>, rs: seq<ClntRes>)
      returns (pass: bool)
    requires Tallied(es, nclnt, wanted, skipped)
    ensures pass <==> forall c | c in wanted :: ClientFits(es, rs, c)
  {
    var todo := wanted.Keys;
    while todo != {}
      invariant todo <= wanted.Keys
      invariant forall c | c in wanted && c !in todo :: ClientFits(es, rs, c)
      decreases todo
    {
      var c := PickAny(todo);
      assert TalliedFor(es, wanted, skipped, c);
      if !(0 <= c < |rs|) || Default(skipped, c) > rs[c].nmaybe || wanted[c] > rs[c].nok + rs[c].nmaybe {
        return false;
      }
      todo := todo - {c};
    }
    pass := true;
  }

  // ---------- What the verdict means for the entries ----------

  /** Client c's numbers are not negative and increase along the list. */
  ghost predicate InOrder(es: EntryList, c: int) {
    && (forall i | 0 <= i < |es| && es[i].id == c :: es[i].n >= 0)
    && (forall i, j | 0 <= i < j < |es| && es[i].id == es[j].id == c :: es[i].n < es[j].n)
  }

  /** Numbers below one of client c's that are not in the list themselves. */
  ghost predicate Missing(es: EntryList, c: int, ns: set<int>) {
    forall n | n in ns :: n >= 0 && Entry(c, n) !in es && exists e | e in es :: e.id == c && e.n > n
  }

  ghost predicate HasEntry(es: EntryList, c: int) {
    exists e | e in es :: e.id == c
  }

  /** Each client's entries are in order, and their numbers below the number of
      puts it reports; it misses no more numbers than it had uncertain puts; and
      the version counts the entries. */
  ghost predicate Acceptable(es: EntryList, nclnt: nat, rs: seq<ClntRes>, ver: int) {
    && (forall c :: InOrder(es, c))
    && ver == |es| + 1 < 0x8000_0000_0000_0000
    && forall c | 0 <= c < nclnt || HasEntry(es, c) :: Suits(es, rs, c)
  }

  ghost predicate Suits(es: EntryList, rs: seq<ClntRes>, c: int) {
    && 0 <= c < |rs|
    && (forall e | e in es && e.id == c :: e.n < rs[c].nok + rs[c].nmaybe)
    && (forall ns | Missing(es, c, ns) :: |ns| <= rs[c].nmaybe)
  }

  // ---------- The numbers of one client ----------

  lemma {:induction false} NsHas(es: EntryList, c: int)
    ensures forall n :: n in Ns(es, c) <==> Entry(c, n) in es
  {
    if es != [] {
      var front, e := es[..|es| - 1], es[|es| - 1];
      NsHas(front, c);
      assert es == front + [e];
    }
  }

  lemma NextAbove(ns: seq<int>, x: int)
    requires Increasing(ns)
    ensures NextN(ns) <= x <==> 0 <= x && forall n | n in ns :: n < x
  {
    if ns != [] {
      assert ns[|ns| - 1] in ns;
      forall n | n in ns ensures 0 <= n <= ns[|ns| - 1] {
        var i :| 0 <= i < |ns| && ns[i] == n;
        assert 0 <= ns[0] <= ns[i];
      }
    }
  }

  lemma InOrderSnoc(es: EntryList, e: Entry, c: int)
    ensures InOrder(es + [e], c) <==>
      InOrder(es, c) && (e.id == c ==> 0 <= e.n && forall x | x in es && x.id == c :: x.n < e.n)
  {
    var r := es + [e];
    if InOrder(es, c) && (e.id == c ==> 0 <= e.n && forall x | x in es && x.id == c :: x.n < e.n) {
      forall i, j | 0 <= i < j < |r| && r[i].id == r[j].id == c ensures r[i].n < r[j].n {
        assert r[i] in es;
        if j < |es| {
          assert es[i].n < es[j].n;
        }
      }
      forall i | 0 <= i < |r| && r[i].id == c ensures r[i].n >= 0 {
        assert i < |es| ==> es[i].n >= 0;
      }
    }
    if InOrder(r, c) {
      forall i, j | 0 <= i < j < |es| && es[i].id == es[j].id == c ensures es[i].n < es[j].n {
        assert r[i].n < r[j].n;
      }
      forall i | 0 <= i < |es| && es[i].id == c ensures es[i].n >= 0 {
        assert r[i].n >= 0;
      }
      assert r[|es|] == e;
      forall x | x in es && x.id == c && e.id == c ensures x.n < e.n {
        var i :| 0 <= i < |es| && es[i] == x;
        assert r[i].n < r[|es|].n;
      }
    }
  }

  lemma {:induction false} IncreasingIsInOrder(es: EntryList, c: int)
    ensures Increasing(Ns(es, c)) <==> InOrder(es, c)
  {
    if es != [] {
      var front, e := es[..|es| - 1], es[|es| - 1];
      assert es == front + [e];
      IncreasingIsInOrder(front, c);
      InOrderSnoc(front, e, c);
      NsAppend(front, e);
      if e.id == c {
        SnocIncreasing(front, c, e.n);
      }
    }
  }

  lemma SnocIncreasing(es: EntryList, c: int, x: int)
    ensures Increasing(Ns(es, c) + [x]) <==>
      Increasing(Ns(es, c)) && 0 <= x && forall e | e in es && e.id == c :: e.n < x
  {
    var ns := Ns(es, c);
    if Increasing(ns + [x]) {
      forall i, j | 0 <= i < j < |ns| ensures ns[i] < ns[j] {
        assert (ns + [x])[i] < (ns + [x])[j];
      }
      assert ns != [] ==> (ns + [x])[0] == ns[0];
    }
    if Increasing(ns) {
      IncreasingAppend(ns, x);
      NextAbove(ns, x);
      NsHas(es, c);
      forall e | e in es && e.id == c ensures e.n in ns {
        assert e == Entry(c, e.n);
      }
    }
  }

  // ---------- Counting what is missing ----------

  function UpTo(k: nat): (s: set<int>)
    ensures |s| == k && forall n :: n in s <==> 0 <= n < k
  {
    if k == 0 then {} else UpTo(k - 1) + {k - 1}
  }

  lemma NumbersAre(ns: seq<int>) returns (s: set<int>)
    requires Increasing(ns)
    ensures |s| == |ns| && (forall n :: n in s <==> n in ns) && s <= UpTo(NextN(ns))
  {
    s := set n | n in ns;
    DistinctCount(ns);
    NonNegative(ns);
    NextAbove(ns, NextN(ns));
  }

  lemma NonNegative(ns: seq<int>)
    requires Increasing(ns)
    ensures forall n | n in ns :: n >= 0
  {
    forall n | n in ns ensures n >= 0 {
      var i :| 0 <= i < |ns| && ns[i] == n;
      assert ns[0] <= ns[i];
    }
  }

  /** The skipped numbers are exactly as many as the checker counts. */
  lemma MissingCount(es: EntryList, c: int, k: nat)
    requires Increasing(Ns(es, c))
    ensures NextN(Ns(es, c)) - |Ns(es, c)| <= k <==> forall ns | Missing(es, c, ns) :: |ns| <= k
  {
    var ns := Ns(es, c);
    var next := NextN(ns);
    var present := NumbersAre(ns);
    NsHas(es, c);
    NonNegative(ns);
    var gaps := UpTo(next) - present;
    assert |gaps| == next - |ns| by {
      assert UpTo(next) == gaps + present;
    }
    GapsAreMissing(es, c, gaps);
    forall m | Missing(es, c, m) ensures |m| <= |gaps| {
      MissingInGaps(es, c, m, gaps);
    }
  }

  ghost predicate AreGaps(es: EntryList, c: int, gaps: set<int>) {
    forall n :: n in gaps <==> 0 <= n < NextN(Ns(es, c)) && n !in Ns(es, c)
  }

  lemma GapsAreMissing(es: EntryList, c: int, gaps: set<int>)
    requires Increasing(Ns(es, c)) && AreGaps(es, c, gaps)
    ensures Missing(es, c, gaps)
  {
    var ns := Ns(es, c);
    NsHas(es, c);
    forall n | n in gaps ensures exists e | e in es :: e.id == c && e.n > n {
      var last := ns[|ns| - 1];
      assert last in ns && n != last;
      assert Entry(c, last) in es;
    }
  }

  lemma MissingInGaps(es: EntryList, c: int, m: set<int>, gaps: set<int>)
    requires Increasing(Ns(es, c)) && AreGaps(es, c, gaps) && Missing(es, c, m)
    ensures |m| <= |gaps|
  {
    var ns := Ns(es, c);
    NsHas(es, c);
    NextAbove(ns, NextN(ns));
    forall n | n in m ensures n in gaps {
      var e :| e in es && e.id == c && e.n > n;
      assert e == Entry(c, e.n);
      assert e.n in ns && e.n < NextN(ns);
    }
    NoMoreThan(m, gaps);
  }

  lemma BelowBound(es: EntryList, c: int, k: nat)
    requires Increasing(Ns(es, c))
    ensures NextN(Ns(es, c)) <= k <==> forall e | e in es && e.id == c :: e.n < k
  {
    NextAbove(Ns(es, c), k);
    NsHas(es, c);
    forall e | e in es && e.id == c ensures e.n in Ns(es, c) {
      assert e == Entry(c, e.n);
    }
  }

  lemma FitsMeans(es: EntryList, rs: seq<ClntRes>, c: int)
    requires Increasing(Ns(es, c))
    ensures ClientFits(es, rs, c) <==> Suits(es, rs, c)
  {
    if 0 <= c < |rs| {
      MissingCount(es, c, rs[c].nmaybe);
      BelowBound(es, c, rs[c].nok + rs[c].nmaybe);
    }
  }

  /** The checker accepts exactly the acceptable lists. */
  lemma AcceptsMeans(es: EntryList, nclnt: nat, rs: seq<ClntRes>, ver: Version)
    ensures Accepts(es, nclnt, rs, ver) <==> Acceptable(es, nclnt, rs, ver)
  {
    forall c ensures Increasing(Ns(es, c)) <==> InOrder(es, c) {
      IncreasingIsInOrder(es, c);
    }
    if Orderly(es) {
      forall c ensures ClientFits(es, rs, c) <==> Suits(es, rs, c) {
        FitsMeans(es, rs, c);
      }
      forall c ensures c in Ids(es) <==> HasEntry(es, c) {
      }
    }
  }

  // ---------- The clients ----------

  /** Where a client is: at the select statement, about to read, holding what it
      read, or finished. */
  datatype Pc = Select | Reading | Writing(es: EntryList, ver: Version) | Stopped

  /** i is the iteration under way. */
  datatype Client = Client(i: nat, nok: nat, nmay: nat, pc: Pc)

  datatype System = System(server: State<EntryList>, clients: seq<Client>)

  /** An empty list at version 1, and n clients that have not begun. */
  ghost predicate Init(s: System, n: nat) {
    s.server == State([], 1) && |s.clients| == n && forall c | 0 <= c < n :: s.clients[c] == Client(0, 0, 0, Select)
  }

  function GetInput(): Input<EntryList> {
    Input(0, "k", [], 0)
  }

  function PutInput(es: EntryList, ver: Version): Input<EntryList> {
    Input(1, "k", es, ver)
  }

  /** Client c performs one action; Get and Put act on the server atomically. */
  ghost predicate ClientStep(s: System, s': System, c: nat)
    requires c < |s.clients|
  {
    var me := s.clients[c];
    match me.pc
    case Select =>
      exists pc | pc == Reading || pc == Stopped :: s' == s.(clients := s.clients[c := me.(pc := pc)])
    case Reading =>
      s.server.State? &&
      var out := Output(s.server.value, s.server.version, OK);
      Step(s.server, GetInput(), out) == (true, s.server) &&
      s' == s.(clients := s.clients[c := me.(pc := Writing(out.value, out.version))])
    case Writing(es, ver) =>
      exists err :: PutStep(s, s', c, es + [Entry(c, me.i)], ver, err)
    case Stopped => false
  }

  ghost predicate PutStep(s: System, s': System, c: nat, es: EntryList, ver: Version, err: Err)
    requires c < |s.clients|
  {
    var (ok, server) := Step(s.server, PutInput(es, ver), Output([], 0, err));
    ok && s' == System(server, s.clients[c := AfterPut(s.clients[c], err)])
  }

  function AfterPut(me: Client, err: Err): Client {
    if err == OK then Client(me.i + 1, me.nok + 1, me.nmay, Select)
    else if err == ErrMaybe then Client(me.i + 1, me.nok, me.nmay + 1, Select)
    else me.(pc := Reading)
  }

  /** A put ends the iteration if it reports success or uncertainty, and counts
      as that; after any other report the client reads again to retry it. The
      list changes exactly when the put carries its version. */
  lemma PutOutcome(s: System, s': System, c: nat, es: EntryList, ver: Version, err: Err)
    requires c < |s.clients| && s.server.State? && PutStep(s, s', c, es, ver, err)
    ensures |s'.clients| == |s.clients| && forall d | 0 <= d < |s.clients| && d != c :: s'.clients[d] == s.clients[d]
    ensures var me, me' := s.clients[c], s'.clients[c];
      && me'.nok == me.nok + (if err == OK then 1 else 0)
      && me'.nmay == me.nmay + (if err == ErrMaybe then 1 else 0)
      && (if err == OK || err == ErrMaybe then me'.i == me.i + 1 && me'.pc == Select else me'.i == me.i && me'.pc == Reading)
    ensures s'.server == if s.server.version == ver then State(es, (ver + 1) % 0x1_0000_0000_0000_0000) else s.server
  {
  }

  ghost predicate Next(s: System, s': System) {
    exists c: nat | c < |s.clients| :: ClientStep(s, s', c)
  }

  ghost predicate IsRun(run: seq<System>, n: nat) {
    run != [] && Init(run[0], n) && forall k | 0 <= k < |run| - 1 :: Next(run[k], run[k + 1])
  }

  /** What relates the shared list to client c. Every successful put is in the
      list, and nothing is in the list that the client has not finished. */
  ghost predicate ClientInv(es: EntryList, me: Client, c: nat) {
    && me.i == me.nok + me.nmay
    && Increasing(Ns(es, c)) && NextN(Ns(es, c)) <= me.i && me.nok <= |Ns(es, c)|
    && (me.pc.Writing? ==> me.pc.es <= es && me.pc.ver == |me.pc.es| + 1)
  }

  ghost predicate Inv(s: System, n: nat, steps: nat) {
    && |s.clients| == n
    && s.server.State? && s.server.version == |s.server.value| + 1 <= steps + 1
    && (forall c | 0 <= c < n :: ClientInv(s.server.value, s.clients[c], c))
    && (forall e | e in s.server.value :: 0 <= e.id < n)
  }

  /** The longest run a Go program can count: its list has an int length. */
  const MAX_STEPS := 0x7fff_ffff_ffff_fffe

  /** Appending client c's entry suits c itself, whose iteration then ends. */
  lemma AppendSuitsWriter(es: EntryList, me: Client, me': Client, c: nat)
    requires ClientInv(es, me, c) && me'.i == me.i + 1 && me'.pc == Select
    requires me'.nok + me'.nmay == me'.i && me'.nok <= me.nok + 1
    ensures ClientInv(es + [Entry(c, me.i)], me', c)
  {
    NsAppend(es, Entry(c, me.i));
    IncreasingAppend(Ns(es, c), me.i);
  }

  lemma AppendSuitsOthers(es: EntryList, e: Entry, other: Client, d: nat)
    requires ClientInv(es, other, d) && e.id != d
    ensures ClientInv(es + [e], other, d)
  {
    NsAppend(es, e);
    assert es <= es + [e];
  }

  lemma PutKeepsInv(s: System, s': System, n: nat, steps: nat, c: nat, err: Err)
    requires Inv(s, n, steps) && steps < MAX_STEPS && c < n && s.clients[c].pc.Writing?
    requires PutStep(s, s', c, s.clients[c].pc.es + [Entry(c, s.clients[c].i)], s.clients[c].pc.ver, err)
    ensures Inv(s', n, steps + 1)
  {
    var me, es := s.clients[c], s.server.value;
    if s.server.version == me.pc.ver {
      assert me.pc.es == es;
      var e := Entry(c, me.i);
      assert s'.server == State(es + [e], s.server.version + 1);
      forall d | 0 <= d < n ensures ClientInv(s'.server.value, s'.clients[d], d) {
        if d == c {
          AppendSuitsWriter(es, me, s'.clients[c], c);
        } else {
          AppendSuitsOthers(es, e, s.clients[d], d);
        }
      }
    }
  }

  lemma StepKeepsInv(s: System, s': System, n: nat, steps: nat)
    requires Inv(s, n, steps) && steps < MAX_STEPS && Next(s, s')
    ensures Inv(s', n, steps + 1)
  {
    var c: nat :| c < |s.clients| && ClientStep(s, s', c);
    var me := s.clients[c];
    if me.pc.Writing? {
      var err :| PutStep(s, s', c, me.pc.es + [Entry(c, me.i)], me.pc.ver, err);
      PutKeepsInv(s, s', n, steps, c, err);
    }
  }

  lemma {:induction false} RunInv(run: seq<System>, n: nat, k: nat)
    requires IsRun(run, n) && k < |run| <= MAX_STEPS
    ensures Inv(run[k], n, k)
  {
    if k > 0 {
      RunInv(run, n, k - 1);
      StepKeepsInv(run[k - 1], run[k], n, k - 1);
    }
  }

  function Results(clients: seq<Client>): seq<ClntRes> {
    seq(|clients|, c requires 0 <= c < |clients| => ClntRes(clients[c].nok, clients[c].nmay))
  }

  /** Whatever the interleaving, the checker accepts: at the end of a run, and
      indeed whenever it is asked. */
  lemma EveryRunPasses(run: seq<System>, n: nat, k: nat)
    requires IsRun(run, n) && k < |run| <= MAX_STEPS
    ensures var s := run[k];
      s.server.State? && Accepts(s.server.value, n, Results(s.clients), s.server.version)
  {
    RunInv(run, n, k);
    var s := run[k];
    forall c ensures Increasing(Ns(s.server.value, c)) {
      if 0 <= c < n {
        assert ClientInv(s.server.value, s.clients[c], c);
      } else {
        NoEntries(s.server.value, c, n);
      }
    }
    forall c | 0 <= c < n ensures ClientFits(s.server.value, Results(s.clients), c) {
      assert ClientInv(s.server.value, s.clients[c], c);
    }
  }

  /** At every moment client c has as many entries in the list as it had
      successful puts, and at most as many more as it had uncertain ones, all
      numbered below the number of its puts: no acknowledged append is lost. */
  lemma AcknowledgedAppendsArePresent(run: seq<System>, n: nat, k: nat, c: nat)
    requires IsRun(run, n) && k < |run| <= MAX_STEPS && c < n
    ensures run[k].server.State? && |run[k].clients| == n
    ensures var me := run[k].clients[c];
      me.nok <= |set i | 0 <= i < |run[k].server.value| && run[k].server.value[i].id == c| <= me.nok + me.nmay
  {
    RunInv(run, n, k);
    var es, me := run[k].server.value, run[k].clients[c];
    assert ClientInv(es, me, c);
    var numbers := NumbersAre(Ns(es, c));
    NoMoreThan(numbers, UpTo(NextN(Ns(es, c))));
    OneNumberEach(es, c);
    assert Places(es, c) == set i | 0 <= i < |es| && es[i].id == c;
  }

  /** Where client c's entries are. */
  function Places(es: EntryList, c: int): set<int> {
    set i | 0 <= i < |es| && es[i].id == c
  }

  lemma {:induction false} OneNumberEach(es: EntryList, c: int)
    ensures |Places(es, c)| == |Ns(es, c)|
  {
    if es != [] {
      var k := |es| - 1;
      OneNumberEach(es[..k], c);
      assert Places(es, c) == Places(es[..k], c) + if es[k].id == c then {k} else {};
    }
  }

  lemma {:induction false} NoEntries(es: EntryList, c: int, n: nat)
    requires forall e | e in es :: 0 <= e.id < n
    requires !(0 <= c < n)
    ensures Ns(es, c) == []
  {
    if es != [] {
      var front, e := es[..|es| - 1], es[|es| - 1];
      assert e in es;
      assert forall x | x in front :: x in es;
      NoEntries(front, c, n);
    }
  }
}
