/** labgob's walk over types: a depth-first search over a possibly cyclic graph
    of types that remembers which types it has checked. */
module TypeWalk {
  import opened Collections

  type Typ = int

  datatype Field = Field(upper: bool, typ: Typ)

  /** Elem stands for slices, arrays and pointers; Leaf for every other kind. */
  datatype Kind = Struct(fields: seq<Field>) | Elem(elem: Typ) | Map(elem: Typ, key: Typ) | Leaf

  type Graph = map<Typ, Kind>

  /** A struct refers to its fields' types, a slice, array or pointer to its
      element type, and a map to its element and its key type. */
  predicate Refers(k: Kind, u: Typ) {
    || (k.Struct? && exists i | 0 <= i < |k.fields| :: k.fields[i].typ == u)
    || (k.Elem? && u == k.elem)
    || (k.Map? && (u == k.elem || u == k.key))
  }

  ghost predicate WellFormed(g: Graph) {
    forall t, u | t in g && Refers(g[t], u) :: u in g
  }

  function Lower(fields: seq<Field>): nat {
    if fields == [] then 0
    else Lower(fields[..|fields| - 1]) + if fields[|fields| - 1].upper then 0 else 1
  }

  lemma LowerStep(fields: seq<Field>, i: nat)
    requires i < |fields|
    ensures Lower(fields[..i + 1]) == Lower(fields[..i]) + if fields[i].upper then 0 else 1
    ensures Refers(Struct(fields), fields[i].typ)
  {
    assert fields[..i + 1][..i] == fields[..i];
  }

  ghost predicate Entered(fields: seq<Field>, n: nat, checked: set<Typ>) {
    n <= |fields| && forall k | 0 <= k < n :: fields[k].typ in checked
  }

  lemma EnteredStep(fields: seq<Field>, n: nat, before: set<Typ>, after: set<Typ>)
    requires n < |fields| && Entered(fields, n, before) && before <= after && fields[n].typ in after
    ensures Entered(fields, n + 1, after)
  {}

  ghost predicate RefsIn(k: Kind, checked: set<Typ>) {
    forall u | Refers(k, u) :: u in checked
  }

  function OwnFields(k: Kind): nat {
    if k.Struct? then Lower(k.fields) else 0
  }

  /** The lower-case fields of each type. */
  ghost function LowerFields(g: Graph): Typ -> int {
    t => if t in g then OwnFields(g[t]) else 0
  }

  /** A path of references from t to u. */
  ghost predicate IsPath(g: Graph, p: seq<Typ>, t: Typ, u: Typ) {
    && p != [] && p[0] == t && p[|p| - 1] == u
    && forall i | 0 <= i < |p| - 1 :: p[i] in g && Refers(g[p[i]], p[i + 1])
  }

  ghost predicate Reaches(g: Graph, t: Typ, u: Typ) {
    exists p :: IsPath(g, p, t, u)
  }

  ghost predicate ReachedFrom(g: Graph, roots: seq<Typ>, u: Typ) {
    exists k | 0 <= k < |roots| :: Reaches(g, roots[k], u)
  }

  lemma ReachesSelf(g: Graph, t: Typ)
    ensures Reaches(g, t, t)
  {
    assert IsPath(g, [t], t, t);
  }

  lemma ReachesVia(g: Graph, t: Typ, s: Typ, u: Typ)
    requires t in g && Refers(g[t], s) && Reaches(g, s, u)
    ensures Reaches(g, t, u)
  {
    var p :| IsPath(g, p, s, u);
    assert IsPath(g, [t] + p, t, u);
  }

  /** Nothing in `done` refers to a type outside `all`. */
  ghost predicate Covered(g: Graph, done: set<Typ>, all: set<Typ>) {
    forall t, u | t in done && t in g && Refers(g[t], u) :: u in all
  }

  lemma {:induction false} ClosedUnderReach(g: Graph, all: set<Typ>, t: Typ, u: Typ, p: seq<Typ>)
    requires Covered(g, all, all) && t in all && IsPath(g, p, t, u)
    ensures u in all
    decreases |p|
  {
    if |p| > 1 {
      assert p[0] in g && Refers(g[p[0]], p[0 + 1]);
      assert IsPath(g, p[1..], p[1], u);
      ClosedUnderReach(g, all, p[1], u, p[1..]);
    }
  }

  /** What one call adds: everything new is reachable from t and has all its
      references checked, and nothing else. */
  ghost predicate Walked(g: Graph, t: Typ, before: set<Typ>, after: set<Typ>) {
    && before <= after && t in after
    && (forall u | u in after - before :: Reaches(g, t, u))
    && Covered(g, after - before, after)
  }

  /** From a set closed under reference, a call adds exactly what t reaches. */
  lemma WalkIsReach(g: Graph, t: Typ, before: set<Typ>, after: set<Typ>, u: Typ)
    requires Walked(g, t, before, after) && Covered(g, before, before)
    ensures Covered(g, after, after)
    ensures u in after <==> u in before || Reaches(g, t, u)
  {
    if p :| IsPath(g, p, t, u) {
      ClosedUnderReach(g, after, t, u, p);
    }
  }

  /** The state inside t's own call: t is checked, the references of everything
      else that is new are too. */
  ghost predicate InWalk(g: Graph, t: Typ, start: set<Typ>, now: set<Typ>) {
    && start + {t} <= now && t in g && t !in start
    && (forall u | u in now - start :: Reaches(g, t, u))
    && Covered(g, now - start - {t}, now)
  }

  /** The lower-case fields counted by t's call in the types below t. */
  ghost function Below(g: Graph, t: Typ, start: set<Typ>, now: set<Typ>): int {
    Sum(now - start - {t}, LowerFields(g))
  }

  lemma WalkBegins(g: Graph, t: Typ, start: set<Typ>)
    requires t in g && t !in start
    ensures InWalk(g, t, start, start + {t}) && Below(g, t, start, start + {t}) == 0
  {
    ReachesSelf(g, t);
    assert start + {t} - start - {t} == {};
  }

  /** One more reference s of t has been walked. */
  lemma WalkRef(g: Graph, t: Typ, s: Typ, start: set<Typ>, before: set<Typ>, after: set<Typ>)
    requires InWalk(g, t, start, before) && Refers(g[t], s) && Walked(g, s, before, after)
    ensures InWalk(g, t, start, after)
    ensures Below(g, t, start, after) == Below(g, t, start, before) + Sum(after - before, LowerFields(g))
  {
    SumUnion(before - start - {t}, after - before, LowerFields(g));
    assert after - start - {t} == (before - start - {t}) + (after - before);
    forall u | u in after - start ensures Reaches(g, t, u) {
      if u in after - before {
        ReachesVia(g, t, s, u);
      }
    }
  }

  lemma Fewer(g: Graph, a: set<Typ>, b: set<Typ>)
    requires a <= b
    ensures |g.Keys - b| <= |g.Keys - a|
    ensures forall t | t in g && t in b && t !in a :: |g.Keys - b| < |g.Keys - a|
  {
    var x, y := g.Keys - b, g.Keys - a;
    assert y == x + (y - x);
  }

  /** The walks completed so far have checked exactly what the roots reach. */
  ghost predicate AllReached(g: Graph, roots: seq<Typ>, checked: set<Typ>) {
    && Covered(g, checked, checked)
    && forall u :: u in checked <==> ReachedFrom(g, roots, u)
  }

  lemma NoRoots(g: Graph)
    ensures AllReached(g, [], {}) && Sum({}, LowerFields(g)) == 0
  {}

  lemma OneMoreRoot(g: Graph, roots: seq<Typ>, t: Typ, before: set<Typ>, after: set<Typ>)
    requires AllReached(g, roots, before) && Walked(g, t, before, after)
    ensures AllReached(g, roots + [t], after)
    ensures Sum(after, LowerFields(g)) == Sum(before, LowerFields(g)) + Sum(after - before, LowerFields(g))
  {
    WalkIsReach(g, t, before, after, t);
    forall u ensures u in after <==> ReachedFrom(g, roots + [t], u) {
      WalkIsReach(g, t, before, after, u);
      if k :| 0 <= k < |roots| && Reaches(g, roots[k], u) {
        assert Reaches(g, (roots + [t])[k], u);
      }
      if Reaches(g, t, u) {
        assert Reaches(g, (roots + [t])[|roots|], u);
      }
    }
    SumUnion(before, after - before, LowerFields(g));
    assert before + (after - before) == after;
  }

  /** During t's call the count is `base`, plus the lower-case fields of the
      types below t. */
  ghost predicate Standing(g: Graph, t: Typ, start: set<Typ>, now: set<Typ>, errors: int, base: int) {
    InWalk(g, t, start, now) && errors == base + Below(g, t, start, now)
  }

  lemma WalkEnds(g: Graph, t: Typ, start: set<Typ>, now: set<Typ>, errors: int, base: int)
    requires t in g && Standing(g, t, start, now, errors, base + OwnFields(g[t])) && RefsIn(g[t], now)
    ensures Walked(g, t, start, now)
    ensures errors == base + Sum(now - start, LowerFields(g))
  {
    SumSplit(now - start, LowerFields(g), t);
  }

  /** Whatever a type in `done` refers to, kind by kind, is in `all`. */
  lemma CoveredMeans(g: Graph, done: set<Typ>, all: set<Typ>)
    requires Covered(g, done, all)
    ensures forall u | u in done && u in g ::
      && (g[u].Struct? ==> forall i | 0 <= i < |g[u].fields| :: g[u].fields[i].typ in all)
      && (g[u].Elem? ==> g[u].elem in all)
      && (g[u].Map? ==> g[u].elem in all && g[u].key in all)
  {
    forall u, i | u in done && u in g && g[u].Struct? && 0 <= i < |g[u].fields|
      ensures g[u].fields[i].typ in all
    {
      assert Refers(g[u], g[u].fields[i].typ);
    }
    forall u | u in done && u in g && g[u].Elem? ensures g[u].elem in all {
      assert Refers(g[u], g[u].elem);
    }
    forall u | u in done && u in g && g[u].Map? ensures g[u].elem in all && g[u].key in all {
      assert Refers(g[u], g[u].elem) && Refers(g[u], g[u].key);
    }
  }

  // ---------- The count, as the number of lower-case fields ----------

  function LowerAt(fields: seq<Field>): set<int> {
    set k | 0 <= k < |fields| && !fields[k].upper
  }

  lemma {:induction false} LowerCount(fields: seq<Field>)
    ensures Lower(fields) == |set k | 0 <= k < |fields| && !fields[k].upper|
  {
    if fields != [] {
      var n := |fields| - 1;
      LowerCount(fields[..n]);
      assert LowerAt(fields) == LowerAt(fields[..n]) + if fields[n].upper then {} else {n};
    }
  }

  /** The lower-case fields of type t. */
  ghost function FieldsOf(g: Graph, t: Typ): set<(Typ, int)> {
    if t in g && g[t].Struct? then set k | k in LowerAt(g[t].fields) :: (t, k) else {}
  }

  /** The lower-case fields of the types in s. */
  ghost function LowerCase(g: Graph, s: set<Typ>): set<(Typ, int)> {
    set t, f | t in s && f in FieldsOf(g, t) :: f
  }

  lemma {:induction false} Paired(t: Typ, ks: set<int>)
    ensures |set k | k in ks :: (t, k)| == |ks|
  {
    if ks != {} {
      var k := Pick(ks);
      Paired(t, ks - {k});
      assert (set j | j in ks :: (t, j)) == (set j | j in ks - {k} :: (t, j)) + {(t, k)};
    }
  }

  lemma FieldsCount(g: Graph, t: Typ)
    ensures |FieldsOf(g, t)| == LowerFields(g)(t)
  {
    if t in g && g[t].Struct? {
      Paired(t, LowerAt(g[t].fields));
      LowerCount(g[t].fields);
    }
  }

  lemma FieldsOfMeans(g: Graph, t: Typ, f: (Typ, int))
    ensures f in FieldsOf(g, t) <==>
      f.0 == t && t in g && g[t].Struct? && 0 <= f.1 < |g[t].fields| && !g[t].fields[f.1].upper
  {
    if t in g && g[t].Struct? && f.0 == t && f.1 in LowerAt(g[t].fields) {
      assert f == (t, f.1);
    }
  }

  /** f is a lower-case field of a type in s, named by that type and its place. */
  lemma LowerCaseMeans(g: Graph, s: set<Typ>, f: (Typ, int))
    ensures f in LowerCase(g, s) <==>
      f.0 in s && f.0 in g && g[f.0].Struct? && 0 <= f.1 < |g[f.0].fields| && !g[f.0].fields[f.1].upper
  {
    FieldsOfMeans(g, f.0, f);
    forall t | t in s && f in FieldsOf(g, t) ensures t == f.0 {
      FieldsOfMeans(g, t, f);
    }
  }

  lemma LowerCaseSplit(g: Graph, s: set<Typ>, t: Typ)
    requires t in s
    ensures |LowerCase(g, s)| == |LowerCase(g, s - {t})| + |FieldsOf(g, t)|
  {
    var rest, own := LowerCase(g, s - {t}), FieldsOf(g, t);
    forall f ensures f in LowerCase(g, s) <==> f in rest + own {
      LowerCaseMeans(g, s, f);
      LowerCaseMeans(g, s - {t}, f);
      FieldsOfMeans(g, t, f);
    }
    forall f | f in rest ensures f !in own {
      LowerCaseMeans(g, s - {t}, f);
      FieldsOfMeans(g, t, f);
    }
    assert LowerCase(g, s) == rest + own && rest !! own;
  }

  lemma {:induction false} SumIsCount(g: Graph, s: set<Typ>)
    ensures Sum(s, LowerFields(g)) == |LowerCase(g, s)|
  {
    if s == {} {
      assert LowerCase(g, s) == {};
    } else {
      var t := Pick(s);
      SumIsCount(g, s - {t});
      FieldsCount(g, t);
      LowerCaseSplit(g, s, t);
    }
  }

  class Checker {
    var checked: set<Typ>
    var errorCount: int

    constructor ()
      ensures checked == {} && errorCount == 0
    {
      checked, errorCount := {}, 0;
    }

    /** Check t and all it refers to; a type already checked is not entered
        again, so the walk ends even on a cyclic graph. */
    method CheckType(g: Graph, t: Typ)
      requires WellFormed(g) && t in g
      modifies this
      ensures Walked(g, t, old(checked), checked)
      ensures forall u | u in checked && u !in old(checked) && u in g ::
        && (g[u].Struct? ==> forall i | 0 <= i < |g[u].fields| :: g[u].fields[i].typ in checked)
        && (g[u].Elem? ==> g[u].elem in checked)
        && (g[u].Map? ==> g[u].elem in checked && g[u].key in checked)
      ensures errorCount == old(errorCount) + Sum(checked - old(checked), LowerFields(g))
      decreases |g.Keys - checked|, 0
    {
      ghost var start, base := checked, errorCount;
      if t in checked {
        assert checked - start == {};
        return;
      }
      checked := checked + {t};
      WalkBegins(g, t, start);
      Fewer(g, start, checked);
      CheckKind(g, t, g[t], start, base);
      WalkEnds(g, t, start, checked, errorCount, base);
      CoveredMeans(g, checked - start, checked);
    }

    /** The recursive call for one reference s of t, during t's walk. */
    method Enter(g: Graph, t: Typ, s: Typ, ghost start: set<Typ>, ghost base: int)
      requires WellFormed(g) && Standing(g, t, start, checked, errorCount, base) && Refers(g[t], s)
      modifies this
      ensures Standing(g, t, start, checked, errorCount, base) && old(checked) <= checked && s in checked
      decreases |g.Keys - checked|, 1
    {
      ghost var before := checked;
      CheckType(g, s);
      WalkRef(g, t, s, start, before, checked);
    }

    /** The switch on t's kind. */
    method CheckKind(g: Graph, t: Typ, k: Kind, ghost start: set<Typ>, ghost base: int)
      requires WellFormed(g) && Standing(g, t, start, checked, errorCount, base) && g[t] == k
      modifies this
      ensures Standing(g, t, start, checked, errorCount, base + OwnFields(k)) && RefsIn(k, checked)
      decreases |g.Keys - checked|, 4
    {
      match k {
        case Struct(fields) => CheckFields(g, t, fields, start, base);
        case Elem(elem) => Enter(g, t, elem, start, base);
        case Map(elem, key) => CheckMap(g, t, elem, key, start, base);
        case Leaf =>
      }
    }

    method CheckMap(g: Graph, t: Typ, elem: Typ, key: Typ, ghost start: set<Typ>, ghost base: int)
      requires WellFormed(g) && Standing(g, t, start, checked, errorCount, base) && g[t] == Map(elem, key)
      modifies this
      ensures Standing(g, t, start, checked, errorCount, base) && RefsIn(g[t], checked)
      decreases |g.Keys - checked|, 3
    {
      ghost var before := checked;
      Enter(g, t, elem, start, base);
      Fewer(g, before, checked);
      Enter(g, t, key, start, base);
    }

    /** The loop over a struct's fields. */
    method CheckFields(g: Graph, t: Typ, fields: seq<Field>, ghost start: set<Typ>, ghost base: int)
      requires WellFormed(g) && Standing(g, t, start, checked, errorCount, base) && g[t] == Struct(fields)
      modifies this
      ensures Standing(g, t, start, checked, errorCount, base + Lower(fields)) && RefsIn(g[t], checked)
      decreases |g.Keys - checked|, 3
    {
      ghost var before := checked;
      for i := 0 to |fields|
        invariant before <= checked
        invariant Standing(g, t, start, checked, errorCount, base + Lower(fields[..i]))
        invariant Entered(fields, i, checked)
      {
        ghost var now := checked;
        LowerStep(fields, i);
        Fewer(g, before, checked);
        CheckField(g, t, fields[i], start, base + Lower(fields[..i]));
        EnteredStep(fields, i, now, checked);
      }
      assert fields[..|fields|] == fields;
    }

    method CheckField(g: Graph, t: Typ, f: Field, ghost start: set<Typ>, ghost base: int)
      requires WellFormed(g) && Standing(g, t, start, checked, errorCount, base) && Refers(g[t], f.typ)
      modifies this
      ensures Standing(g, t, start, checked, errorCount, base + if f.upper then 0 else 1)
      ensures old(checked) <= checked && f.typ in checked
      decreases |g.Keys - checked|, 2
    {
      if !f.upper {
        errorCount := errorCount + 1;
      }
      Enter(g, t, f.typ, start, base + if f.upper then 0 else 1);
    }

    /** One more call by a user of the package, after calls for the types `earlier`. */
    method CheckValue(g: Graph, t: Typ, ghost earlier: seq<Typ>)
      requires WellFormed(g) && t in g
      requires AllReached(g, earlier, checked) && errorCount == Sum(checked, LowerFields(g))
      modifies this
      ensures AllReached(g, earlier + [t], checked) && errorCount == Sum(checked, LowerFields(g))
    {
      ghost var before := checked;
      CheckType(g, t);
      OneMoreRoot(g, earlier, t, before, checked);
    }

    /** A series of completed calls: afterwards the checked types are exactly
        those reachable from the roots, and each lower-case field of each of
        them has been counted once. */
    method CheckAll(g: Graph, roots: seq<Typ>)
      requires WellFormed(g) && checked == {} && errorCount == 0
      requires forall t | t in roots :: t in g
      modifies this
      ensures AllReached(g, roots, checked)
      ensures forall t | t in roots :: t in checked
      ensures forall u | u in checked && u in g ::
        && (g[u].Struct? ==> forall i | 0 <= i < |g[u].fields| :: g[u].fields[i].typ in checked)
        && (g[u].Elem? ==> g[u].elem in checked)
        && (g[u].Map? ==> g[u].elem in checked && g[u].key in checked)
      ensures errorCount == Sum(checked, LowerFields(g))
      ensures exists lower: set<(Typ, int)> :: errorCount == |lower| && forall f :: f in lower <==>
        f.0 in checked && f.0 in g && g[f.0].Struct? && 0 <= f.1 < |g[f.0].fields| && !g[f.0].fields[f.1].upper
    {
      ghost var earlier := [];
      NoRoots(g);
      for i := 0 to |roots|
        invariant earlier == roots[..i]
        invariant AllReached(g, earlier, checked) && errorCount == Sum(checked, LowerFields(g))
      {
        CheckValue(g, roots[i], earlier);
        earlier := earlier + [roots[i]];
      }
      assert earlier == roots;
      CoveredMeans(g, checked, checked);
      forall t | t in roots ensures t in checked {
        var k :| 0 <= k < |roots| && roots[k] == t;
        ReachesSelf(g, t);
        assert Reaches(g, roots[k], t);
      }
      SumIsCount(g, checked);
      forall f ensures f in LowerCase(g, checked) <==>
        f.0 in checked && f.0 in g && g[f.0].Struct? && 0 <= f.1 < |g[f.0].fields| && !g[f.0].fields[f.1].upper
      {
        LowerCaseMeans(g, checked, f);
      }
    }
  }
}
