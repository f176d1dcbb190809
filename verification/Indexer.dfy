/** The indexer application: which documents hold each word. */
module Indexer {
  import opened Collections
  import opened StringOrder
  import opened MapReduce

  /** A document's name and the words in it, in order. */
  datatype Document = Document(name: string, words: seq<string>)

  /** One pair for each distinct word, in any order. */
  ghost predicate IsMapped(d: Document, res: seq<KeyValue>) {
    forall kv: KeyValue ::
      multiset(res)[kv] == if kv.value == d.name && kv.key in d.words then 1 else 0
  }

  /** Ranging over a Go map visits the words in no particular order. */
  method Map(d: Document) returns (res: seq<KeyValue>)
    ensures IsMapped(d, res)
  {
    var m := {};
    for i := 0 to |d.words|
      invariant forall w :: w in m <==> w in d.words[..i]
    {
      m := m + {d.words[i]};
    }
    assert d.words[..|d.words|] == d.words;
    res := [];
    var todo := m;
    while todo != {}
      invariant todo <= m
      invariant forall kv: KeyValue ::
        multiset(res)[kv] == if kv.value == d.name && kv.key in m - todo then 1 else 0
    {
      var w := PickAny(todo);
      todo := todo - {w};
      res := res + [KeyValue(w, d.name)];
    }
  }

  function Digit(n: nat): char
    requires n < 10
  {
    '0' + n as char
  }

  /** n in decimal. */
  function Itoa(n: nat): string {
    if n < 10 then [Digit(n)] else Itoa(n / 10) + [Digit(n % 10)]
  }

  function Join(s: seq<string>, sep: string): string {
    if s == [] then ""
    else if |s| == 1 then s[0]
    else Join(s[..|s| - 1], sep) + sep + s[|s| - 1]
  }

  // ---------- Reading an entry back ----------

  function DigitOf(c: char): int {
    c as int - '0' as int
  }

  ghost predicate IsDecimal(s: string) {
    forall k | 0 <= k < |s| :: '0' <= s[k] <= '9'
  }

  function Atoi(s: string): int {
    if s == [] then 0 else 10 * Atoi(s[..|s| - 1]) + DigitOf(s[|s| - 1])
  }

  /** The digits of n read back as n, without leading zeros. */
  lemma {:induction false} ItoaReadsBack(n: nat)
    ensures IsDecimal(Itoa(n)) && Atoi(Itoa(n)) == n && Itoa(n) != []
    ensures n > 0 ==> Itoa(n)[0] != '0'
  {
    if n < 10 {
      assert [Digit(n)][..0] == [];
    } else {
      ItoaReadsBack(n / 10);
      var front, last := Itoa(n / 10), Digit(n % 10);
      assert (front + [last])[..|front|] == front;
    }
  }

  /** The pieces of s between separators. */
  function Split(s: string, sep: char): (r: seq<string>)
    ensures r != []
  {
    if s == [] then [""]
    else
      var front, c := Split(s[..|s| - 1], sep), s[|s| - 1];
      if c == sep then front + [""] else front[..|front| - 1] + [front[|front| - 1] + [c]]
  }

  lemma {:induction false} SplitPiece(s: string, t: string, sep: char)
    requires sep !in t
    ensures Split(s + [sep] + t, sep) == Split(s, sep) + [t]
  {
    if t == [] {
      assert (s + [sep] + t)[..|s|] == s;
    } else {
      var front, c := t[..|t| - 1], t[|t| - 1];
      SplitPiece(s, front, sep);
      assert (s + [sep] + t)[..|s| + |t|] == s + [sep] + front;
      assert front + [c] == t;
    }
  }

  lemma {:induction false} SplitWord(t: string, sep: char)
    requires sep !in t
    ensures Split(t, sep) == [t]
  {
    if t != [] {
      SplitWord(t[..|t| - 1], sep);
      assert t == t[..|t| - 1] + [t[|t| - 1]];
    }
  }

  /** Splitting at the separator returns the joined pieces. */
  lemma {:induction false} SplitJoin(s: seq<string>, sep: char)
    requires s != [] && forall x | x in s :: sep !in x
    ensures Split(Join(s, [sep]), sep) == s
  {
    var n := |s| - 1;
    assert s[n] in s;
    if n == 0 {
      SplitWord(s[0], sep);
      assert s == [s[0]];
    } else {
      assert forall x | x in s[..n] :: x in s;
      SplitJoin(s[..n], sep);
      SplitPiece(Join(s[..n], [sep]), s[n], sep);
      assert s == s[..n] + [s[n]];
    }
  }

  /** The index entry for a word that the named documents hold. */
  function Entry(names: seq<string>): string {
    Itoa(|names|) + " " + Join(Sort(names), ",")
  }

  /** An entry for documents without commas in their names is the number of
      them, a space, and their names in order, all of which can be read back. */
  lemma EntryReadsBack(names: seq<string>)
    requires names != [] && forall x | x in names :: ',' !in x
    ensures var digits := Itoa(|names|);
      && Entry(names)[..|digits|] == digits && Atoi(digits) == |names|
      && |Entry(names)| > |digits| && Entry(names)[|digits|] == ' '
      && Split(Entry(names)[|digits| + 1..], ',') == Sort(names)
  {
    var digits, sorted := Itoa(|names|), Sort(names);
    ItoaReadsBack(|names|);
    assert |sorted| == |multiset(sorted)| == |multiset(names)| == |names|;
    forall x | x in sorted ensures ',' !in x {
      assert x in multiset(names);
    }
    SplitJoin(sorted, ',');
    assert [','] == ",";
    assert Entry(names) == digits + [' '] + Join(sorted, ",");
  }

  /** Reduce, as the value it returns. */
  function Reducing(): Reducer {
    (key, values) => Entry(values)
  }

  /** Reduce sorts its argument in place. */
  method Reduce(key: string, values: array<string>) returns (r: string)
    modifies values
    ensures values[..] == Sort(old(values[..]))
    ensures r == Reducing()(key, old(values[..]))
  {
    SortStrings(values);
    r := Itoa(values.Length) + " " + Join(values[..], ",");
  }

  /** sort.Strings. */
  method SortStrings(a: array<string>)
    modifies a
    ensures a[..] == Sort(old(a[..]))
  {
    var sorted := Sort(a[..]);
    assert |sorted| == |multiset(sorted)| == |multiset(a[..])| == a.Length;
    for i := 0 to a.Length
      invariant forall k | 0 <= k < i :: a[k] == sorted[k]
    {
      a[i] := sorted[i];
    }
  }

  /** However a word's documents come in, its entry is the same. */
  lemma ReduceIsInsensitive()
    ensures Insensitive(Reducing())
  {
    forall key: string, v: seq<string>, w: seq<string> | multiset(v) == multiset(w)
      ensures Reducing()(key, v) == Reducing()(key, w)
    {
      assert |v| == |multiset(v)| == |w|;
      SortedIsUnique(Sort(v), Sort(w));
    }
  }

  /** The names of the documents that hold w, in input order. */
  function Holding(docs: seq<Document>, w: string): seq<string> {
    if docs == [] then []
    else
      var last := docs[|docs| - 1];
      Holding(docs[..|docs| - 1], w) + if w in last.words then [last.name] else []
  }

  /** Each document that holds w is named once for each time it is given. */
  lemma {:induction false} HoldingMeans(docs: seq<Document>, w: string, name: string)
    ensures multiset(Holding(docs, w))[name] == |set i | 0 <= i < |docs| && docs[i].name == name && w in docs[i].words|
  {
    if docs != [] {
      var n := |docs| - 1;
      HoldingMeans(docs[..n], w, name);
      HolderStep(docs, n, w, name);
    }
  }

  lemma HolderStep(docs: seq<Document>, n: nat, w: string, name: string)
    requires |docs| == n + 1
    ensures |HolderSet(docs, w, name)| ==
      |HolderSet(docs[..n], w, name)| + if docs[n].name == name && w in docs[n].words then 1 else 0
  {
    var front := HolderSet(docs[..n], w, name);
    assert HolderSet(docs, w, name) == front + if docs[n].name == name && w in docs[n].words then {n} else {};
  }

  function HolderSet(docs: seq<Document>, w: string, name: string): set<int> {
    set i | 0 <= i < |docs| && docs[i].name == name && w in docs[i].words
  }

  /** Map's possible results for each document. */
  ghost predicate AllMapped(docs: seq<Document>, mapped: seq<seq<KeyValue>>) {
    |mapped| == |docs| && forall i | 0 <= i < |docs| :: IsMapped(docs[i], mapped[i])
  }

  /** What a multiplicity says about a key's values. */
  lemma {:induction false} ValueCounts(kva: seq<KeyValue>, w: string, v: string)
    ensures multiset(Values(kva, w))[v] == multiset(kva)[KeyValue(w, v)]
  {
    if kva != [] {
      ValueCounts(kva[..|kva| - 1], w, v);
      assert kva == kva[..|kva| - 1] + [kva[|kva| - 1]];
    }
  }

  lemma MappedValues(d: Document, res: seq<KeyValue>, w: string)
    requires IsMapped(d, res)
    ensures Values(res, w) == if w in d.words then [d.name] else []
  {
    var expected := if w in d.words then [d.name] else [];
    forall v ensures multiset(Values(res, w))[v] == multiset(expected)[v] {
      ValueCounts(res, w, v);
    }
    assert multiset(Values(res, w)) == multiset(expected);
    SmallBag(Values(res, w), expected);
  }

  lemma SmallBag<T>(s: seq<T>, t: seq<T>)
    requires multiset(s) == multiset(t) && |t| <= 1
    ensures s == t
  {
    assert |s| == |multiset(s)| == |t|;
    if |s| == 1 {
      assert s[0] in multiset(t);
    }
  }

  lemma {:induction false} HoldingValues(docs: seq<Document>, mapped: seq<seq<KeyValue>>, w: string)
    requires AllMapped(docs, mapped)
    ensures Values(Flatten(mapped), w) == Holding(docs, w)
  {
    if docs != [] {
      var n := |docs| - 1;
      HoldingValues(docs[..n], mapped[..n], w);
      MappedValues(docs[n], mapped[n], w);
      ValuesConcat(Flatten(mapped[..n]), mapped[n], w);
    }
  }

  /** The index of the documents: a line for each word in any of them, naming
      and counting the documents that hold it, words in order. */
  ghost predicate IsIndex(docs: seq<Document>, out: seq<Line>) {
    && StrictlyOrdered(out)
    && forall line :: line in out <==>
      Holding(docs, line.key) != [] && line.output == Entry(Holding(docs, line.key))
  }

  /** The sequential program computes the index, whatever orders Map's range
      and the sort choose; and there is only one index. */
  lemma SequentialIndex(docs: seq<Document>, mapped: seq<seq<KeyValue>>, out: seq<Line>)
    requires AllMapped(docs, mapped) && IsSequential(Flatten(mapped), Reducing(), out)
    ensures IsIndex(docs, out)
    ensures forall other | IsIndex(docs, other) :: other == out
  {
    ReduceIsInsensitive();
    SequentialLines(Flatten(mapped), Reducing(), out);
    forall line: Line ensures IsLine(Flatten(mapped), Reducing(), line) <==>
        Holding(docs, line.key) != [] && line.output == Entry(Holding(docs, line.key))
    {
      HoldingValues(docs, mapped, line.key);
    }
    forall other | IsIndex(docs, other) ensures other == out {
      StrictIsUnique(other, out);
    }
  }

  /** So does any number of reduce tasks, fed by separate runs of Map. */
  lemma BucketedIndex(docs: seq<Document>, mapped: seq<seq<KeyValue>>, n: nat, outs: seq<seq<Line>>, index: seq<Line>)
    requires AllMapped(docs, mapped) && n > 0 && IsIndex(docs, index)
    requires IsBucketed(Flatten(mapped), Reducing(), n, outs)
    ensures multiset(Flatten(outs)) == multiset(index)
  {
    ReduceIsInsensitive();
    forall line ensures multiset(Flatten(outs))[line] == multiset(index)[line] {
      assert outs[..n] == outs;
      MergedCounts(Flatten(mapped), Reducing(), n, outs, n, line);
      StrictCounts(index, line);
      HoldingValues(docs, mapped, line.key);
    }
  }
}
