/** What the one-key model accepts, said of the operations themselves. */
module OneKey {
  import opened KvModel
  import opened Locality

  /** The versions start again after this many puts. */
  const VERSIONS := 0x1_0000_0000_0000_0000

  /** How many puts in l take effect: those that carry the number of effective
      puts before them. */
  function Effective(l: History): nat {
    if l == [] then 0
    else
      var n, o := Effective(l[..|l| - 1]), l[|l| - 1];
      if o.input.op == 1 && o.input.version == n % VERSIONS then n + 1 else n
  }

  ghost predicate TakesEffect(l: History, i: nat)
    requires i < |l|
  {
    l[i].input.op == 1 && l[i].input.version == Effective(l[..i]) % VERSIONS
  }

  /** A get returns what the last effective put before it wrote, or the empty
      string if there is none. */
  ghost predicate ReadsLast(l: History, i: nat)
    requires i < |l|
  {
    && ((forall j | 0 <= j < i :: !TakesEffect(l, j)) ==> l[i].output.value == "")
    && forall j | 0 <= j < i && TakesEffect(l, j) && (forall m | j < m < i :: !TakesEffect(l, m)) ::
         l[i].output.value == l[j].input.value
  }

  ghost predicate LawfulAt(l: History, i: nat)
    requires i < |l|
  {
    var o := l[i];
    || (o.input.op == 0 && ReadsLast(l, i))
    || (o.input.op == 1 && TakesEffect(l, i) && (o.output.err == OK || o.output.err == ErrMaybe))
    || (o.input.op == 1 && !TakesEffect(l, i) && (o.output.err == ErrVersion || o.output.err == ErrMaybe))
  }

  ghost predicate Lawful(l: History) {
    forall i | 0 <= i < |l| :: LawfulAt(l, i)
  }

  // ---------- The model, run forward ----------

  /** The model's state after l. */
  function After(st: State<string>, l: History): State<string> {
    if l == [] then st
    else Step(After(st, l[..|l| - 1]), l[|l| - 1].input, l[|l| - 1].output).1
  }

  lemma {:induction false} ExplainsSnoc(st: State<string>, l: History, o: Op)
    ensures After(st, l + [o]) == Step(After(st, l), o.input, o.output).1
    ensures Explains(st, l + [o]) <==> Explains(st, l) && Step(After(st, l), o.input, o.output).0
    decreases |l|
  {
    var r := l + [o];
    assert r[..|l|] == l;
    if l == [] {
      assert r[1..] == [];
    } else {
      var next := Step(st, l[0].input, l[0].output).1;
      assert r[1..] == l[1..] + [o];
      ExplainsSnoc(next, l[1..], o);
      AfterFirst(st, l);
    }
  }

  lemma {:induction false} AfterFirst(st: State<string>, l: History)
    requires l != []
    ensures After(st, l) == After(Step(st, l[0].input, l[0].output).1, l[1..])
    decreases |l|
  {
    var n := |l| - 1;
    if n > 0 {
      AfterFirst(st, l[..n]);
      assert l[..n][1..] == l[1..][..n - 1];
    } else {
      assert l[..n] == [] && l[1..] == [];
    }
  }

  /** The value after l: that of the last effective put. */
  ghost predicate Holds(l: History, v: string) {
    && ((forall j | 0 <= j < |l| :: !TakesEffect(l, j)) ==> v == "")
    && forall j | 0 <= j < |l| && TakesEffect(l, j) && (forall m | j < m < |l| :: !TakesEffect(l, m)) ::
         v == l[j].input.value
  }

  lemma EffectOfPrefix(l: History, o: Op, i: nat)
    requires i < |l|
    ensures TakesEffect(l + [o], i) <==> TakesEffect(l, i)
  {
    assert (l + [o])[..i] == l[..i];
  }

  lemma LastEffect(l: History, o: Op)
    ensures TakesEffect(l + [o], |l|) <==> o.input.op == 1 && o.input.version == Effective(l) % VERSIONS
    ensures Effective(l + [o]) == Effective(l) + if TakesEffect(l + [o], |l|) then 1 else 0
  {
    assert (l + [o])[..|l|] == l;
  }

  lemma HoldsNext(l: History, o: Op, v: string)
    requires Holds(l, v)
    ensures Holds(l + [o], if TakesEffect(l + [o], |l|) then o.input.value else v)
  {
    forall i | 0 <= i < |l| ensures TakesEffect(l + [o], i) <==> TakesEffect(l, i) {
      EffectOfPrefix(l, o, i);
    }
    var r, n := l + [o], |l|;
    if !TakesEffect(r, n) {
      forall j | 0 <= j < |r| && TakesEffect(r, j) && (forall m | j < m < |r| :: !TakesEffect(r, m))
        ensures v == r[j].input.value
      {
        assert j < n && TakesEffect(l, j);
        forall m | j < m < n ensures !TakesEffect(l, m) {
          assert !TakesEffect(r, m);
        }
      }
      if forall j | 0 <= j < |r| :: !TakesEffect(r, j) {
        forall j | 0 <= j < n ensures !TakesEffect(l, j) {
          assert !TakesEffect(r, j);
        }
      }
    }
  }

  /** One value fits: the last effective put is one put. */
  lemma {:induction false} HoldsIsUnique(l: History, n: nat, v: string, w: string)
    requires n <= |l|
    requires (forall j | 0 <= j < n :: !TakesEffect(l, j)) ==> v == w == ""
    requires forall j | 0 <= j < n && TakesEffect(l, j) && (forall m | j < m < n :: !TakesEffect(l, m)) ::
      v == l[j].input.value == w
    ensures v == w
  {
    var k: nat := n;
    while k > 0 && !TakesEffect(l, k - 1)
      invariant k <= n && forall m | k <= m < n :: !TakesEffect(l, m)
    {
      k := k - 1;
    }
  }

  /** At its end, l reads what it holds. */
  lemma ReadsWhatIsHeld(l: History, o: Op, v: string)
    requires Holds(l, v)
    ensures ReadsLast(l + [o], |l|) <==> o.output.value == v
  {
    var r, n := l + [o], |l|;
    forall i | 0 <= i < n ensures TakesEffect(r, i) <==> TakesEffect(l, i) {
      EffectOfPrefix(l, o, i);
    }
    if ReadsLast(r, n) {
      forall j | 0 <= j < n && TakesEffect(r, j) && (forall m | j < m < n :: !TakesEffect(r, m))
        ensures o.output.value == r[j].input.value == v
      {
        forall m | j < m < n ensures !TakesEffect(l, m) {
          assert !TakesEffect(r, m);
        }
      }
      if forall j | 0 <= j < n :: !TakesEffect(r, j) {
        forall j | 0 <= j < n ensures !TakesEffect(l, j) {
          assert !TakesEffect(r, j);
        }
      }
      HoldsIsUnique(r, n, o.output.value, v);
    } else {
      assert o.output.value == v ==> Holds(l, o.output.value);
    }
  }

  lemma LawfulSnoc(l: History, o: Op)
    ensures Lawful(l + [o]) <==> Lawful(l) && LawfulAt(l + [o], |l|)
  {
    var r := l + [o];
    forall i | 0 <= i < |l| ensures LawfulAt(r, i) <==> LawfulAt(l, i) {
      LawfulPrefix(l, o, i);
    }
    if Lawful(r) {
      forall i | 0 <= i < |l| ensures LawfulAt(l, i) {
        assert LawfulAt(r, i);
      }
    }
  }

  lemma LawfulPrefix(l: History, o: Op, i: nat)
    requires i < |l|
    ensures LawfulAt(l + [o], i) <==> LawfulAt(l, i)
  {
    var r := l + [o];
    EffectOfPrefix(l, o, i);
    forall j | 0 <= j < i ensures TakesEffect(r, j) <==> TakesEffect(l, j) {
      EffectOfPrefix(l, o, j);
    }
    if ReadsLast(r, i) {
      forall j | 0 <= j < i && TakesEffect(l, j) && (forall m | j < m < i :: !TakesEffect(l, m))
        ensures l[i].output.value == l[j].input.value
      {
        forall m | j < m < i ensures !TakesEffect(r, m) {
          EffectOfPrefix(l, o, m);
        }
        assert r[j] == l[j];
      }
    }
    if ReadsLast(l, i) {
      forall j | 0 <= j < i && TakesEffect(r, j) && (forall m | j < m < i :: !TakesEffect(r, m))
        ensures r[i].output.value == r[j].input.value
      {
        forall m | j < m < i ensures !TakesEffect(l, m) {
          EffectOfPrefix(l, o, m);
        }
        assert r[j] == l[j];
      }
    }
  }

  /** The model's state after a lawful sequence. */
  ghost predicate Tracks(l: History, st: State<string>) {
    st.State? && st.version == Effective(l) % VERSIONS && Holds(l, st.value)
  }

  /** The state that putting an operation at r[n] into force leads to. */
  ghost function Following(r: History, n: nat, st: State<string>): State<string>
    requires n < |r| && st.State?
  {
    if TakesEffect(r, n) then State(r[n].input.value, Next(st.version)) else st
  }

  lemma TracksNext(l: History, o: Op, st: State<string>)
    requires Tracks(l, st)
    ensures Tracks(l + [o], Following(l + [o], |l|, st))
  {
    LastEffect(l, o);
    HoldsNext(l, o, st.value);
    NextVersion(Effective(l));
  }

  lemma StepFollows(r: History, n: nat, st: State<string>, effective: nat)
    requires n < |r| && st.State? && st.version == effective % VERSIONS
    requires TakesEffect(r, n) <==> r[n].input.op == 1 && r[n].input.version == effective % VERSIONS
    requires ReadsLast(r, n) <==> r[n].output.value == st.value
    ensures Step(st, r[n].input, r[n].output).0 <==> LawfulAt(r, n)
    ensures LawfulAt(r, n) ==> Step(st, r[n].input, r[n].output).1 == Following(r, n, st)
  {
  }

  lemma StepIsLawful(l: History, o: Op, st: State<string>)
    requires Tracks(l, st)
    ensures Step(st, o.input, o.output).0 <==> LawfulAt(l + [o], |l|)
    ensures LawfulAt(l + [o], |l|) ==> Step(st, o.input, o.output).1 == Following(l + [o], |l|, st)
  {
    LastEffect(l, o);
    ReadsWhatIsHeld(l, o, st.value);
    StepFollows(l + [o], |l|, st, Effective(l));
  }

  lemma NextVersion(n: nat)
    ensures (n % VERSIONS + 1) % VERSIONS == (n + 1) % VERSIONS
  {
  }

  lemma {:induction false} ModelIsLawful(l: History)
    ensures Explains(INIT, l) <==> Lawful(l)
    ensures Lawful(l) ==> Tracks(l, After(INIT, l))
  {
    if l != [] {
      var front, o := l[..|l| - 1], l[|l| - 1];
      assert l == front + [o];
      ModelIsLawful(front);
      ExplainsSnoc(INIT, front, o);
      LawfulSnoc(front, o);
      if Lawful(front) {
        StepIsLawful(front, o, After(INIT, front));
        TracksNext(front, o, After(INIT, front));
      }
    }
  }

  /** The operations can be put into an order that respects real time, in which
      each get returns what the last effective put before it wrote, and each
      put answers as its version requires. */
  ghost predicate Orderable(h: History) {
    exists l: History :: multiset(l) == multiset(h) && RealTime(l) && Lawful(l)
  }

  lemma LinearizableMeans(h: History)
    ensures LinearizableKey(h) <==> Orderable(h)
  {
    if l: History :| multiset(l) == multiset(h) && RealTime(l) && Explains(INIT, l) {
      ModelIsLawful(l);
    }
    if l: History :| multiset(l) == multiset(h) && RealTime(l) && Lawful(l) {
      ModelIsLawful(l);
    }
  }

  /** Judging the lists that Partition returns by these rules decides
      linearizability of the whole history. */
  lemma PartitionJudges(h: History, parts: seq<History>)
    requires WellTimed(h) && Partitions(h, parts)
    ensures Linearizable(h) <==> forall i | 0 <= i < |parts| :: Orderable(parts[i])
  {
    PartitionDecides(h, parts);
    forall i | 0 <= i < |parts| ensures LinearizableKey(parts[i]) <==> Orderable(parts[i]) {
      LinearizableMeans(parts[i]);
    }
  }

  /** A read that misses a put that had returned before it was called: no order
      explains it. */
  lemma StaleReadsAreRefused(put: Op, get: Op)
    requires put.input.op == 1 && put.input.version == 0 && put.output.err == OK && put.input.value != ""
    requires get.input.op == 0 && get.output.value == "" && put.ret < get.call
    ensures !LinearizableKey([put, get])
  {
    LinearizableMeans([put, get]);
    forall l: History | multiset(l) == multiset([put, get]) && RealTime(l) ensures !Lawful(l) {
      TwoOrders(l, put, get);
      if l == [put, get] {
        assert l[..0] == [];
        assert TakesEffect(l, 0) && !LawfulAt(l, 1);
      } else {
        assert l[0].call <= l[1].ret;
      }
    }
  }
}
