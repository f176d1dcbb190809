/** MapReduce: the sequential sort-and-group run, the hash that picks a reduce
    task, and why running each task's bucket apart changes nothing.

    A Go string is a sequence of bytes; the characters of a string here stand
    for its bytes. */
module MapReduce {
  import opened Collections
  import opened StringOrder

  datatype KeyValue = KeyValue(key: string, value: string)

  /** One line of reduce output. */
  datatype Line = Line(key: string, output: string)

  type Reducer = (string, seq<string>) -> string

  function Flatten<T>(parts: seq<seq<T>>): seq<T> {
    if parts == [] then [] else Flatten(parts[..|parts| - 1]) + parts[|parts| - 1]
  }

  lemma FlattenStep<T>(parts: seq<seq<T>>, k: nat)
    requires k < |parts|
    ensures Flatten(parts[..k + 1]) == Flatten(parts[..k]) + parts[k]
    ensures multiset(Flatten(parts[..k + 1])) == multiset(Flatten(parts[..k])) + multiset(parts[k])
  {
    assert parts[..k + 1][..k] == parts[..k];
  }

  /** x occurs in all the parts together as often as in the parts one by one. */
  lemma {:induction false} FlattenCounts<T>(parts: seq<seq<T>>, x: T)
    ensures multiset(Flatten(parts))[x] == Occurrences(parts, x)
  {
    if parts != [] {
      FlattenCounts(parts[1..], x);
      FlattenFirst(parts);
    }
  }

  ghost function Occurrences<T>(parts: seq<seq<T>>, x: T): nat {
    if parts == [] then 0 else multiset(parts[0])[x] + Occurrences(parts[1..], x)
  }

  lemma {:induction false} FlattenFirst<T>(parts: seq<seq<T>>)
    requires parts != []
    ensures Flatten(parts) == parts[0] + Flatten(parts[1..])
  {
    var n, tail := |parts| - 1, parts[1..];
    if n == 0 {
      assert parts[..0] == [] && tail == [];
    } else {
      FlattenFirst(parts[..n]);
      assert parts[..n][0] == parts[0] && parts[..n][1..] == tail[..n - 1] && tail[n - 1] == parts[n];
      Associate(parts[0], Flatten(tail[..n - 1]), parts[n]);
    }
  }

  lemma Associate<T>(a: seq<T>, b: seq<T>, c: seq<T>)
    ensures (a + b) + c == a + (b + c)
  {
  }

  /** The values of one key, in order. */
  function Values(kva: seq<KeyValue>, key: string): seq<string> {
    if kva == [] then []
    else
      var last := kva[|kva| - 1];
      Values(kva[..|kva| - 1], key) + if last.key == key then [last.value] else []
  }

  ghost predicate SortedByKey(kva: seq<KeyValue>) {
    forall i, j | 0 <= i < j < |kva| :: Le(kva[i].key, kva[j].key)
  }

  ghost predicate StrictlyOrdered(out: seq<Line>) {
    forall i, j | 0 <= i < j < |out| :: Le(out[i].key, out[j].key) && out[i].key != out[j].key
  }

  /** The line that reducing kva's values for the line's key yields. */
  ghost predicate IsLine(kva: seq<KeyValue>, f: Reducer, line: Line) {
    Values(kva, line.key) != [] && line.output == f(line.key, Values(kva, line.key))
  }

  /** One line for each key, in the order of keys, each reduced on that key's values. */
  ghost predicate IsReduction(kva: seq<KeyValue>, f: Reducer, out: seq<Line>) {
    StrictlyOrdered(out) && forall line :: line in out <==> IsLine(kva, f, line)
  }

  /** An outcome of the sequential program: the sort is not stable, so it may
      leave the pairs of one key in any order. */
  ghost predicate IsSequential(kva: seq<KeyValue>, f: Reducer, out: seq<Line>) {
    exists p :: multiset(p) == multiset(kva) && SortedByKey(p) && IsReduction(p, f, out)
  }

  lemma {:induction false} ValuesConcat(a: seq<KeyValue>, b: seq<KeyValue>, key: string)
    ensures Values(a + b, key) == Values(a, key) + Values(b, key)
  {
    if b == [] {
      assert a + b == a;
    } else {
      var front, last, ab := b[..|b| - 1], b[|b| - 1], a + b;
      var end := if last.key == key then [last.value] else [];
      ValuesConcat(a, front, key);
      assert ab[..|ab| - 1] == a + front && ab[|ab| - 1] == last;
      assert Values(ab, key) == Values(a + front, key) + end;
      assert Values(b, key) == Values(front, key) + end;
    }
  }

  lemma ValuesRemove(a: seq<KeyValue>, i: nat, rest: seq<KeyValue>, key: string)
    requires i < |a| && rest == a[..i] + a[i + 1..]
    ensures multiset(Values(a, key)) == multiset(Values(rest, key)) + multiset(Values([a[i]], key))
  {
    var pre, one, post := a[..i], [a[i]], a[i + 1..];
    ValuesConcat(pre, post, key);
    ValuesConcat(one, post, key);
    ValuesConcat(pre, one + post, key);
    Around(a, i);
    assert pre + one + post == pre + (one + post);
  }

  lemma {:induction false} ValuesPermute(a: seq<KeyValue>, b: seq<KeyValue>, key: string)
    requires multiset(a) == multiset(b)
    ensures multiset(Values(a, key)) == multiset(Values(b, key))
    decreases |a|
  {
    assert |a| == |multiset(a)| == |multiset(b)| == |b|;
    if a != [] {
      assert a[0] in multiset(a);
      var i := FindIn(b, a[0]);
      var restA, restB := a[..0] + a[0 + 1..], b[..i] + b[i + 1..];
      RemoveAt(a, 0);
      RemoveAt(b, i);
      ValuesPermute(restA, restB, key);
      ValuesRemove(a, 0, restA, key);
      ValuesRemove(b, i, restB, key);
    }
  }

  /** A key has values exactly when some pair carries it. */
  lemma {:induction false} HasValues(kva: seq<KeyValue>, key: string)
    ensures Values(kva, key) != [] <==> exists i :: 0 <= i < |kva| && kva[i].key == key
  {
    if kva != [] {
      HasValues(kva[..|kva| - 1], key);
      if i :| 0 <= i < |kva| - 1 && kva[i].key == key {
        assert kva[..|kva| - 1][i].key == key;
      }
    }
  }

  method SortByKey(kva: seq<KeyValue>) returns (r: seq<KeyValue>)
    ensures multiset(r) == multiset(kva) && SortedByKey(r)
  {
    r := [];
    for i := 0 to |kva|
      invariant multiset(r) == multiset(kva[..i]) && SortedByKey(r)
    {
      r := InsertByKey(r, kva[i]);
      TakeOneMore(kva, i);
    }
    assert kva[..|kva|] == kva;
  }

  method InsertByKey(kva: seq<KeyValue>, x: KeyValue) returns (r: seq<KeyValue>)
    requires SortedByKey(kva)
    ensures multiset(r) == multiset(kva) + multiset{x} && SortedByKey(r)
  {
    var k := 0;
    while k < |kva| && Le(kva[k].key, x.key)
      invariant k <= |kva| && forall j | 0 <= j < k :: Le(kva[j].key, x.key)
    {
      k := k + 1;
    }
    Between(kva, x, k);
    assert kva == kva[..k] + kva[k..];
    r := kva[..k] + [x] + kva[k..];
  }

  lemma Between(r: seq<KeyValue>, x: KeyValue, k: nat)
    requires SortedByKey(r) && k <= |r|
    requires forall j | 0 <= j < k :: Le(r[j].key, x.key)
    requires k < |r| ==> !Le(r[k].key, x.key)
    ensures SortedByKey(r[..k] + [x] + r[k..])
  {
    forall j | k <= j < |r| ensures Le(x.key, r[j].key) {
      LeTotal(r[k].key, x.key);
      if j > k {
        LeTransitive(x.key, r[k].key, r[j].key);
      }
    }
  }

  /** i begins a run of equal keys. */
  ghost predicate AtGroup(kva: seq<KeyValue>, i: nat) {
    i <= |kva| && (0 < i < |kva| ==> kva[i - 1].key != kva[i].key)
  }

  /** In sorted pairs, what precedes a group has only smaller keys. */
  lemma BeforeGroup(kva: seq<KeyValue>, i: nat, p: nat)
    requires SortedByKey(kva) && AtGroup(kva, i) && p < i < |kva|
    ensures Le(kva[p].key, kva[i].key) && kva[p].key != kva[i].key
  {
    if kva[p].key == kva[i].key && p < i - 1 {
      LeAntisymmetric(kva[i - 1].key, kva[i].key);
    }
  }

  /** All pairs from i to j carry the key of the pair at i. */
  ghost predicate SameKey(kva: seq<KeyValue>, i: nat, j: nat) {
    i < j <= |kva| && forall k | i <= k < j :: kva[k].key == kva[i].key
  }

  lemma NoneBefore(kva: seq<KeyValue>, i: nat)
    requires SortedByKey(kva) && AtGroup(kva, i) && i < |kva|
    ensures Values(kva[..i], kva[i].key) == []
  {
    HasValues(kva[..i], kva[i].key);
    forall p | 0 <= p < i ensures kva[..i][p].key != kva[i].key {
      BeforeGroup(kva, i, p);
    }
  }

  lemma GroupValues(kva: seq<KeyValue>, i: nat, j: nat, key: string)
    requires SameKey(kva, i, j)
    ensures Values(kva[i..j], key) != [] <==> key == kva[i].key
  {
    HasValues(kva[i..j], key);
    assert kva[i..j][0] == kva[i];
  }

  lemma ValuesOfPrefix(kva: seq<KeyValue>, i: nat, j: nat, key: string)
    requires SortedByKey(kva) && AtGroup(kva, i) && SameKey(kva, i, j)
    ensures key == kva[i].key ==> Values(kva[..j], key) == Values(kva[i..j], key) != []
    ensures key != kva[i].key ==> Values(kva[..j], key) == Values(kva[..i], key)
  {
    TakeSplit(kva, i, j);
    ValuesConcat(kva[..i], kva[i..j], key);
    GroupValues(kva, i, j, key);
    NoneBefore(kva, i);
  }

  lemma OneMoreGroup(kva: seq<KeyValue>, f: Reducer, out: seq<Line>, i: nat, j: nat)
    requires SortedByKey(kva) && AtGroup(kva, i) && SameKey(kva, i, j)
    requires IsReduction(kva[..i], f, out)
    ensures IsReduction(kva[..j], f, out + [Line(kva[i].key, f(kva[i].key, Values(kva[i..j], kva[i].key)))])
  {
    var key := kva[i].key;
    var line := Line(key, f(key, Values(kva[i..j], key)));
    var all := out + [line];
    forall a | 0 <= a < |out| ensures Le(out[a].key, key) && out[a].key != key {
      var l := out[a];
      assert l in out;
      HasValues(kva[..i], l.key);
      var p :| 0 <= p < i && kva[p].key == l.key;
      BeforeGroup(kva, i, p);
    }
    forall l ensures l in all <==> IsLine(kva[..j], f, l) {
      ValuesOfPrefix(kva, i, j, l.key);
      assert l.key == key ==> l !in out;
    }
  }

  lemma ValuesOneMore(kva: seq<KeyValue>, i: nat, k: nat)
    requires i <= k < |kva| && kva[k].key == kva[i].key
    ensures Values(kva[i..k + 1], kva[i].key) == Values(kva[i..k], kva[i].key) + [kva[k].value]
  {
    assert kva[i..k + 1][..k - i] == kva[i..k];
  }

  /** The nested i, j, k loops over the sorted pairs. */
  method ReduceGroups(kva: seq<KeyValue>, reducef: Reducer) returns (out: seq<Line>)
    requires SortedByKey(kva)
    ensures IsReduction(kva, reducef, out)
  {
    out := [];
    var i := 0;
    while i < |kva|
      invariant AtGroup(kva, i) && IsReduction(kva[..i], reducef, out)
    {
      var j := i + 1;
      while j < |kva| && kva[j].key == kva[i].key
        invariant SameKey(kva, i, j)
      {
        j := j + 1;
      }
      var values := [];
      for k := i to j
        invariant values == Values(kva[i..k], kva[i].key)
      {
        ValuesOneMore(kva, i, k);
        values := values + [kva[k].value];
      }
      OneMoreGroup(kva, reducef, out, i, j);
      out := out + [Line(kva[i].key, reducef(kva[i].key, values))];
      i := j;
    }
    assert kva[..i] == kva;
  }

  /** The sequential program, given what Map returned for each file. */
  method Sequential(mapped: seq<seq<KeyValue>>, reducef: Reducer) returns (out: seq<Line>)
    ensures IsSequential(Flatten(mapped), reducef, out)
  {
    var intermediate := [];
    for i := 0 to |mapped|
      invariant intermediate == Flatten(mapped[..i])
    {
      FlattenStep(mapped, i);
      intermediate := intermediate + mapped[i];
    }
    assert mapped[..|mapped|] == mapped;
    var sorted := SortByKey(intermediate);
    out := ReduceGroups(sorted, reducef);
  }

  // ---- When the unstable sort does not show ----

  /** f ignores the order of a key's values. */
  ghost predicate Insensitive(f: Reducer) {
    forall key, v, w | multiset(v) == multiset(w) :: f(key, v) == f(key, w)
  }

  /** The sequential program has one possible output for each input. */
  ghost predicate Deterministic(f: Reducer) {
    forall kva, a, b | IsSequential(kva, f, a) && IsSequential(kva, f, b) :: a == b
  }

  lemma {:induction false} StrictIsUnique(a: seq<Line>, b: seq<Line>)
    requires StrictlyOrdered(a) && StrictlyOrdered(b) && forall line :: line in a <==> line in b
    ensures a == b
  {
    if a == [] {
      assert forall i | 0 <= i < |b| :: b[i] in b;
    } else {
      var x := a[0];
      assert x in b;
      var y := b[0];
      assert y in a;
      var i :| 0 <= i < |b| && b[i] == x;
      var j :| 0 <= j < |a| && a[j] == y;
      if i > 0 && j > 0 {
        LeAntisymmetric(x.key, y.key);
      }
      assert x == y;
      forall line ensures line in a[1..] <==> line in b[1..] {
        assert line in a <==> line == x || line in a[1..];
        assert line in b <==> line == x || line in b[1..];
      }
      StrictIsUnique(a[1..], b[1..]);
      assert a == [x] + a[1..] && b == [x] + b[1..];
    }
  }

  /** An insensitive reducer sees only the pairs, not how they were arranged. */
  lemma SequentialLines(kva: seq<KeyValue>, f: Reducer, out: seq<Line>)
    requires Insensitive(f) && IsSequential(kva, f, out)
    ensures IsReduction(kva, f, out)
  {
    var p :| multiset(p) == multiset(kva) && SortedByKey(p) && IsReduction(p, f, out);
    forall line ensures IsLine(p, f, line) <==> IsLine(kva, f, line) {
      ValuesPermute(p, kva, line.key);
      assert |Values(p, line.key)| == |multiset(Values(p, line.key))| == |Values(kva, line.key)|;
    }
  }

  /** All pairs carry one key: any arrangement of them is sorted. */
  function Tagged(key: string, values: seq<string>): seq<KeyValue> {
    if values == [] then []
    else Tagged(key, values[..|values| - 1]) + [KeyValue(key, values[|values| - 1])]
  }

  lemma {:induction false} TaggedValues(key: string, values: seq<string>)
    ensures forall k | 0 <= k < |Tagged(key, values)| :: Tagged(key, values)[k].key == key
    ensures Values(Tagged(key, values), key) == values
  {
    if values != [] {
      TaggedValues(key, values[..|values| - 1]);
      var front := Tagged(key, values[..|values| - 1]);
      ValuesConcat(front, [KeyValue(key, values[|values| - 1])], key);
      assert values == values[..|values| - 1] + [values[|values| - 1]];
    }
  }

  lemma {:induction false} TaggedCounts(key: string, values: seq<string>, kv: KeyValue)
    ensures multiset(Tagged(key, values))[kv] == if kv.key == key then multiset(values)[kv.value] else 0
  {
    if values != [] {
      TaggedCounts(key, values[..|values| - 1], kv);
      assert values == values[..|values| - 1] + [values[|values| - 1]];
    }
  }

  lemma TaggedPermute(key: string, v: seq<string>, w: seq<string>)
    requires multiset(v) == multiset(w)
    ensures multiset(Tagged(key, v)) == multiset(Tagged(key, w))
  {
    forall kv ensures multiset(Tagged(key, v))[kv] == multiset(Tagged(key, w))[kv] {
      TaggedCounts(key, v, kv);
      TaggedCounts(key, w, kv);
    }
  }

  lemma OneKey(p: seq<KeyValue>, key: string, f: Reducer)
    requires p != [] && forall k | 0 <= k < |p| :: p[k].key == key
    ensures SortedByKey(p) && IsReduction(p, f, [Line(key, f(key, Values(p, key)))])
  {
    LeTotal(key, key);
    forall k: string ensures Values(p, k) != [] <==> k == key {
      HasValues(p, k);
      assert p[0].key == key;
    }
  }

  lemma OneGroup(key: string, v: seq<string>, w: seq<string>, f: Reducer)
    requires multiset(v) == multiset(w) && w != []
    ensures IsSequential(Tagged(key, v), f, [Line(key, f(key, w))])
  {
    TaggedPermute(key, v, w);
    TaggedValues(key, w);
    OneKey(Tagged(key, w), key, f);
  }

  /** The sequential output is determined exactly for the reducers that ignore
      the order of their values. */
  lemma DeterministicReducers(f: Reducer)
    ensures Deterministic(f) <==> Insensitive(f)
  {
    if Insensitive(f) {
      forall kva, a, b | IsSequential(kva, f, a) && IsSequential(kva, f, b) ensures a == b {
        SequentialLines(kva, f, a);
        SequentialLines(kva, f, b);
        StrictIsUnique(a, b);
      }
    }
    if Deterministic(f) {
      forall key, v, w | multiset(v) == multiset(w) ensures f(key, v) == f(key, w) {
        assert |v| == |multiset(v)| == |w|;
        if v != [] {
          OneGroup(key, v, v, f);
          OneGroup(key, v, w, f);
          assert [Line(key, f(key, v))] == [Line(key, f(key, w))];
        }
      }
    }
  }

  // ---- Hash buckets ----

  const OFFSET := 2166136261
  const PRIME := 16777619

  /** Bitwise exclusive-or. */
  function Xor(a: nat, b: nat): nat
    decreases a + b
  {
    if a == 0 && b == 0 then 0 else 2 * Xor(a / 2, b / 2) + (a + b) % 2
  }

  /** The i'th bit of a, from the lowest. */
  function Bit(a: nat, i: nat): nat {
    if i == 0 then a % 2 else Bit(a / 2, i - 1)
  }

  /** Each bit is set exactly when one of the two is. */
  lemma {:induction false} XorBits(a: nat, b: nat, i: nat)
    ensures Bit(Xor(a, b), i) == if Bit(a, i) == Bit(b, i) then 0 else 1
    decreases i
  {
    XorHalves(a, b);
    if i > 0 {
      XorBits(a / 2, b / 2, i - 1);
    }
  }

  lemma XorHalves(a: nat, b: nat)
    ensures Xor(a, b) / 2 == Xor(a / 2, b / 2)
    ensures Xor(a, b) % 2 == if a % 2 == b % 2 then 0 else 1
  {
    if a > 0 || b > 0 {
      Doubled(Xor(a / 2, b / 2), (a + b) % 2);
      Parity(a, b);
    }
  }

  lemma Doubled(x: nat, r: nat)
    requires r < 2
    ensures (2 * x + r) / 2 == x && (2 * x + r) % 2 == r
  {
  }

  lemma Parity(a: nat, b: nat)
    ensures (a + b) % 2 == if a % 2 == b % 2 then 0 else 1
  {
  }

  /** Take in one byte: exclusive-or, then multiply, dropping the carry out of 32 bits. */
  function HashStep(h: nat, byte: nat): (r: nat)
    ensures r < 0x1_0000_0000
  {
    Xor(h, byte) * PRIME % 0x1_0000_0000
  }

  /** 32-bit FNV-1a. */
  function Fnv1a(bytes: string): (h: nat)
    ensures h < 0x1_0000_0000
  {
    if bytes == [] then OFFSET
    else HashStep(Fnv1a(bytes[..|bytes| - 1]), bytes[|bytes| - 1] as int % 256)
  }

  lemma {:induction false} XorZero(a: nat)
    ensures Xor(a, 0) == a
  {
    if a > 0 {
      XorZero(a / 2);
    }
  }

  /** The lowest bit apart. */
  lemma XorSplit(x: nat, y: nat, r: nat, t: nat)
    requires r < 2 && t < 2
    ensures Xor(2 * x + r, 2 * y + t) == 2 * Xor(x, y) + (r + t) % 2
  {
    var a, b := 2 * x + r, 2 * y + t;
    Doubled(x, r);
    Doubled(y, t);
    XorHalves(a, b);
    Parity(r, t);
    Halved(Xor(a, b));
  }

  lemma Halved(n: nat)
    ensures n == 2 * (n / 2) + n % 2
  {
  }

  /** Two bits at a time: 69 exclusive-or 97 is 36, below any higher bits. */
  lemma XorTwo(x: nat, y: nat, z: nat, p: nat, q: nat)
    requires p < 4 && q < 4 && Xor(x, y) == z
    ensures Xor(4 * x + p, 4 * y + q) == 4 * z + 2 * ((p / 2 + q / 2) % 2) + (p % 2 + q % 2) % 2
  {
    XorSplit(x, y, p / 2, q / 2);
    XorSplit(2 * x + p / 2, 2 * y + q / 2, p % 2, q % 2);
  }

  lemma XorLow(q: nat)
    ensures Xor(128 * q + 69, 97) == 128 * q + 36
  {
    XorZero(q);
    XorSplit(q, 0, 1, 1);
    XorTwo(2 * q + 1, 1, 2 * q, 0, 2);
    XorTwo(8 * q + 4, 6, 8 * q + 2, 1, 0);
    XorTwo(32 * q + 17, 24, 32 * q + 9, 1, 1);
  }

  /** The hash of the empty string, and of a string with one more byte. */
  lemma Fnv1aSnoc(bytes: string, byte: char)
    ensures bytes == "" ==> Fnv1a(bytes) == 0x811c_9dc5
    ensures Fnv1a(bytes + [byte]) == HashStep(Fnv1a(bytes), byte as int % 256)
  {
    assert (bytes + [byte])[..|bytes|] == bytes;
  }

  lemma HashOfA(h: nat, byte: nat, q: nat)
    requires byte == 97 && h == 128 * q + 69
    ensures HashStep(h, byte) == (128 * q + 36) * 16777619 % 0x1_0000_0000
  {
    XorLow(q);
  }

  lemma ModMul(q: nat, x: nat)
    requires q == 16922939 && x == (128 * q + 36) * 16777619 % 0x1_0000_0000
    ensures x == 0xe40c_292c
  {
  }

  /** The hash without its top bit: never negative, even in a 32-bit int. */
  function IHash(key: string): (h: int)
    ensures 0 <= h < 0x8000_0000
  {
    Fnv1a(key) % 0x8000_0000
  }

  /** The published FNV-1a values of "" and "a". */
  lemma Fnv1aVector(bytes: string, q: nat)
    requires bytes == "" && q == 16922939
    ensures Fnv1a(bytes) == 0x811c_9dc5 && Fnv1a(bytes + ['a']) == 0xe40c_292c
  {
    Fnv1aSnoc(bytes, 'a');
    HashOfA(Fnv1a(bytes), 'a' as int % 256, q);
    ModMul(q, HashStep(Fnv1a(bytes), 'a' as int % 256));
  }

  /** The hash is the FNV-1a value below its top bit. */
  lemma IHashMeans(key: string)
    ensures IHash(key) == Fnv1a(key) || IHash(key) == Fnv1a(key) - 0x8000_0000
  {
  }

  /** The reduce task of a key. */
  function BucketOf(key: string, n: nat): (b: nat)
    requires n > 0
    ensures b < n
  {
    IHash(key) % n
  }

  /** The remainder of the hash. */
  lemma BucketMeans(key: string, n: nat)
    requires n > 0
    ensures exists q: nat :: IHash(key) == q * n + BucketOf(key, n)
  {
    Divides(IHash(key), n);
  }

  lemma Divides(h: nat, n: nat)
    requires n > 0
    ensures exists q: nat :: h == q * n + h % n
  {
    var q: nat := h / n;
    assert h == q * n + h % n;
  }

  /** The pairs of reduce task b. */
  function Bucket(kva: seq<KeyValue>, n: nat, b: nat): seq<KeyValue>
    requires n > 0
  {
    if kva == [] then []
    else
      var last := kva[|kva| - 1];
      Bucket(kva[..|kva| - 1], n, b) + if BucketOf(last.key, n) == b then [last] else []
  }

  /** A key's values all lie in its bucket, in their order. */
  lemma {:induction false} ValuesInBucket(kva: seq<KeyValue>, n: nat, b: nat, key: string)
    requires n > 0
    ensures Values(Bucket(kva, n, b), key) == if BucketOf(key, n) == b then Values(kva, key) else []
  {
    if kva != [] {
      var front, last := kva[..|kva| - 1], kva[|kva| - 1];
      ValuesInBucket(front, n, b, key);
      if BucketOf(last.key, n) == b {
        ValuesConcat(Bucket(front, n, b), [last], key);
      } else {
        assert Bucket(kva, n, b) == Bucket(front, n, b);
      }
    }
  }

  /** Each reduce task is a sequential run on its own bucket. */
  ghost predicate IsBucketed(kva: seq<KeyValue>, f: Reducer, n: nat, outs: seq<seq<Line>>)
    requires n > 0
  {
    |outs| == n && forall b | 0 <= b < n :: IsSequential(Bucket(kva, n, b), f, outs[b])
  }

  /** f was applied to the key and exactly the key's values, in some order. */
  ghost predicate IsReducedOnAll(kva: seq<KeyValue>, f: Reducer, line: Line) {
    exists vs :: vs != [] && multiset(vs) == multiset(Values(kva, line.key)) && line.output == f(line.key, vs)
  }

  /** Whatever the reducer: each key has one line in all, in its own task's
      output, made from exactly the values emitted for it anywhere. */
  lemma EachKeyReducedOnce(kva: seq<KeyValue>, f: Reducer, n: nat, outs: seq<seq<Line>>, b: nat)
    requires n > 0 && b < n && IsBucketed(kva, f, n, outs)
    ensures StrictlyOrdered(outs[b])
    ensures forall line | line in outs[b] :: BucketOf(line.key, n) == b && IsReducedOnAll(kva, f, line)
    ensures forall key | Values(kva, key) != [] && BucketOf(key, n) == b ::
      exists i :: 0 <= i < |outs[b]| && outs[b][i].key == key
  {
    var part, out := Bucket(kva, n, b), outs[b];
    var p :| multiset(p) == multiset(part) && SortedByKey(p) && IsReduction(p, f, out);
    forall line | line in out ensures BucketOf(line.key, n) == b && IsReducedOnAll(kva, f, line) {
      ValuesPermute(p, part, line.key);
      ValuesInBucket(kva, n, b, line.key);
      var vs := Values(p, line.key);
      assert vs[0] in multiset(vs);
    }
    forall key | Values(kva, key) != [] && BucketOf(key, n) == b
      ensures exists i :: 0 <= i < |out| && out[i].key == key
    {
      ValuesPermute(p, part, key);
      ValuesInBucket(kva, n, b, key);
      assert Values(kva, key)[0] in multiset(Values(p, key));
      var line := Line(key, f(key, Values(p, key)));
      assert IsLine(p, f, line);
      assert line in out;
    }
  }

  lemma {:induction false} StrictCounts(out: seq<Line>, line: Line)
    requires StrictlyOrdered(out)
    ensures multiset(out)[line] == if line in out then 1 else 0
  {
    if out != [] {
      var front, last := out[..|out| - 1], out[|out| - 1];
      assert out == front + [last];
      StrictCounts(front, line);
      forall i | 0 <= i < |front| ensures front[i] != last {
        assert out[i].key != out[|out| - 1].key;
      }
    }
  }

  /** Task b's output holds each line of its keys once. */
  lemma TaskCounts(kva: seq<KeyValue>, f: Reducer, n: nat, outs: seq<seq<Line>>, b: nat, line: Line)
    requires n > 0 && b < n && Insensitive(f) && IsBucketed(kva, f, n, outs)
    ensures multiset(outs[b])[line] == if BucketOf(line.key, n) == b && IsLine(kva, f, line) then 1 else 0
  {
    SequentialLines(Bucket(kva, n, b), f, outs[b]);
    StrictCounts(outs[b], line);
    ValuesInBucket(kva, n, b, line.key);
    assert line in outs[b] <==> IsLine(Bucket(kva, n, b), f, line);
  }

  /** The first k tasks' outputs together hold each line of their keys once. */
  lemma {:induction false} MergedCounts(kva: seq<KeyValue>, f: Reducer, n: nat, outs: seq<seq<Line>>, k: nat, line: Line)
    requires n > 0 && k <= n && Insensitive(f) && IsBucketed(kva, f, n, outs)
    ensures multiset(Flatten(outs[..k]))[line] == if BucketOf(line.key, n) < k && IsLine(kva, f, line) then 1 else 0
  {
    if k > 0 {
      var b := k - 1;
      MergedCounts(kva, f, n, outs, b, line);
      FlattenStep(outs, b);
      TaskCounts(kva, f, n, outs, b, line);
    }
  }

  /** The tasks' outputs, merged and sorted, equal the sequential run's output,
      sorted, for every number of reduce tasks. */
  lemma BucketsEqualSequential(kva: seq<KeyValue>, f: Reducer, n: nat, outs: seq<seq<Line>>, out: seq<Line>)
    requires n > 0 && Insensitive(f)
    requires IsBucketed(kva, f, n, outs) && IsSequential(kva, f, out)
    ensures multiset(Flatten(outs)) == multiset(out)
  {
    SequentialLines(kva, f, out);
    assert outs[..n] == outs;
    forall line ensures multiset(Flatten(outs))[line] == multiset(out)[line] {
      MergedCounts(kva, f, n, outs, n, line);
      StrictCounts(out, line);
    }
  }
}
