/** Codes/fano_shannon.py and its near-copy Codes/fannon-shannon.py: a
    Shannon–Fano prefix coder. The compressor counts the symbols of a message,
    sorts them by falling frequency (a stable sort), and builds the code table by
    splitting the sorted symbols into a "high" group, whose codes get a 0, and a
    "low" group, whose codes get a 1, recursing into both. Compressing
    concatenates codes; decompressing reads bits into a buffer until the buffer
    is a code. Frequencies are whole counts rather than shares of the length. */
module ShannonFano {
  import opened Bits
  import opened Outcome

  /** A symbol and its number of occurrences: one item of the frequency dict. */
  type Entry = (char, nat)

  // ---------------------------------------------------------- ordered dicts

  /** The symbols an item list holds. */
  function SymSet(items: seq<Entry>): set<char>
  {
    set e | e in items :: e.0
  }

  /** The symbols in item order: the key order of the dict. */
  function Symbols(items: seq<Entry>): seq<char>
  {
    seq(|items|, i requires 0 <= i < |items| => items[i].0)
  }

  /** Dict keys are distinct. */
  ghost predicate DistinctKeys(items: seq<Entry>)
  {
    forall i, j | 0 <= i < j < |items| :: items[i].0 != items[j].0
  }

  ghost predicate AllPositive(items: seq<Entry>)
  {
    forall e | e in items :: e.1 > 0
  }

  lemma SymSetSnoc(items: seq<Entry>, x: Entry)
    ensures SymSet(items + [x]) == SymSet(items) + {x.0}
  {
    assert x in items + [x];
    forall e | e in items
      ensures e in items + [x]
    {
    }
  }

  /** Appending an item keeps the keys distinct exactly when its symbol is new. */
  lemma DistinctSnoc(items: seq<Entry>, x: Entry)
    requires DistinctKeys(items)
    ensures DistinctKeys(items + [x]) <==> x.0 !in SymSet(items)
  {
    var s := items + [x];
    if x.0 in SymSet(items) {
      var e :| e in items && e.0 == x.0;
      var j :| 0 <= j < |items| && items[j] == e;
      assert s[j].0 == s[|items|].0;
    }
  }

  // ------------------------------------------------------------ frequencies

  /** The distinct symbols of m in order of first occurrence: the order in which
      the counting loop adds keys to its dict. */
  function Occurrences(m: string): seq<char>
    decreases |m|
  {
    if m == [] then []
    else
      var init := m[..|m| - 1];
      if m[|m| - 1] in init then Occurrences(init) else Occurrences(init) + [m[|m| - 1]]
  }

  /** Each symbol of m occurs once among its first occurrences, and no other. */
  lemma {:induction false} OccurrencesSpec(m: string)
    ensures forall c :: c in Occurrences(m) <==> c in m
    ensures forall i, j | 0 <= i < j < |Occurrences(m)| :: Occurrences(m)[i] != Occurrences(m)[j]
    decreases |m|
  {
    if m != [] {
      var init := m[..|m| - 1];
      OccurrencesSpec(init);
      assert m == init + [m[|m| - 1]];
    }
  }

  /** The index of the first occurrence of c in m, or |m| when c does not occur. */
  function FirstAt(m: string, c: char): (p: nat)
    ensures p <= |m| && (p < |m| <==> c in m)
    ensures p < |m| ==> m[p] == c
    ensures c !in m[..p]
  {
    if m == [] then 0
    else if m[0] == c then 0
    else
      assert m[..1 + FirstAt(m[1..], c)] == [m[0]] + m[1..][..FirstAt(m[1..], c)];
      1 + FirstAt(m[1..], c)
  }

  /** Appending a symbol keeps the first occurrence of every earlier symbol and
      makes a new symbol's first occurrence the end of the old message. */
  lemma FirstAtAppend(m: string, x: char, c: char)
    ensures c in m ==> FirstAt(m + [x], c) == FirstAt(m, c)
    ensures c !in m && c == x ==> FirstAt(m + [x], c) == |m|
  {
    var s := m + [x];
    var p, q := FirstAt(m, c), FirstAt(s, c);
    if c in m {
      assert s[p] == c;
      forall k | 0 <= k < p
        ensures s[k] != c
      {
        assert s[k] == m[..p][k];
      }
      forall k | 0 <= k < q
        ensures s[k] != c
      {
        assert s[k] == s[..q][k];
      }
    } else if c == x {
      assert s[|m|] == c;
    }
  }

  /** The symbols of s first occur in m in the order s lists them. */
  predicate InFirstOccurrenceOrder(m: string, s: seq<char>)
  {
    forall i, j | 0 <= i < j < |s| :: FirstAt(m, s[i]) < FirstAt(m, s[j]) < |m|
  }

  /** Every key of the counting dict is a symbol of m. */
  lemma OccurrenceIn(m: string, i: nat)
    requires i < |Occurrences(m)|
    ensures Occurrences(m)[i] in m
  {
    OccurrencesSpec(m);
  }

  /** The dict's keys come in order of first occurrence: an earlier key first
      occurs in m strictly before a later one. */
  lemma {:induction false} OccurrencesOrder(m: string)
    ensures InFirstOccurrenceOrder(m, Occurrences(m))
    decreases |m|
  {
    if m != [] {
      var init, x := m[..|m| - 1], m[|m| - 1];
      assert m == init + [x];
      OccurrencesOrder(init);
      OccurrencesOrderStep(init, x);
    }
  }

  /** Appending a symbol keeps the keys in order of first occurrence. */
  lemma OccurrencesOrderStep(init: string, x: char)
    requires InFirstOccurrenceOrder(init, Occurrences(init))
    ensures InFirstOccurrenceOrder(init + [x], Occurrences(init + [x]))
  {
    var m := init + [x];
    assert m[..|m| - 1] == init;
    var o, occ := Occurrences(init), Occurrences(m);
    assert occ == if x in init then o else o + [x];
    forall i, j | 0 <= i < j < |occ|
      ensures FirstAt(m, occ[i]) < FirstAt(m, occ[j]) < |m|
    {
      OccurrenceIn(init, i);
      FirstAtAppend(init, x, o[i]);
      if j < |o| {
        OccurrenceIn(init, j);
        FirstAtAppend(init, x, o[j]);
        assert FirstAt(init, o[i]) < FirstAt(init, o[j]) < |init|;
      } else {
        FirstAtAppend(init, x, x);
      }
    }
    assert InFirstOccurrenceOrder(m, occ);
  }

  /** The counting dict of m as items: each distinct symbol with its number of
      occurrences, in order of first occurrence. */
  function Tally(m: string): seq<Entry>
  {
    var syms := Occurrences(m);
    seq(|syms|, i requires 0 <= i < |syms| => (syms[i], multiset(m)[syms[i]]))
  }

  /** The tally has one entry per distinct symbol, holding its count, which is positive. */
  lemma TallySpec(m: string)
    ensures DistinctKeys(Tally(m)) && AllPositive(Tally(m)) && |Tally(m)| == |Occurrences(m)|
    ensures forall c :: c in SymSet(Tally(m)) <==> c in m
    ensures forall e | e in Tally(m) :: e.1 == multiset(m)[e.0]
  {
    var t := Tally(m);
    OccurrencesSpec(m);
    forall c | c in m
      ensures c in SymSet(t)
    {
      var i :| 0 <= i < |Occurrences(m)| && Occurrences(m)[i] == c;
      assert t[i] in t;
    }
    forall e | e in t
      ensures e.1 > 0
    {
      var i :| 0 <= i < |t| && t[i] == e;
      assert Occurrences(m)[i] in m;
    }
  }

  /** Stable insertion into a list sorted by falling count: x goes after every
      entry whose count is at least its own. */
  function Insert(sorted: seq<Entry>, x: Entry): seq<Entry>
    decreases |sorted|
  {
    if sorted == [] then [x]
    else if sorted[0].1 >= x.1 then [sorted[0]] + Insert(sorted[1..], x)
    else [x] + sorted
  }

  /** `sorted(items, key=value, reverse=True)`, which Python keeps stable. */
  function SortDesc(items: seq<Entry>): seq<Entry>
    decreases |items|
  {
    if items == [] then [] else Insert(SortDesc(items[..|items| - 1]), items[|items| - 1])
  }

  ghost predicate NonIncreasing(s: seq<Entry>)
  {
    forall i, j | 0 <= i < j < |s| :: s[i].1 >= s[j].1
  }

  /** The entries of s whose count is v, in their order in s. */
  function Filter(s: seq<Entry>, v: nat): seq<Entry>
    decreases |s|
  {
    if s == [] then [] else Filter(s[..|s| - 1], v) + (if s[|s| - 1].1 == v then [s[|s| - 1]] else [])
  }

  lemma {:induction false} FilterConcat(a: seq<Entry>, b: seq<Entry>, v: nat)
    ensures Filter(a + b, v) == Filter(a, v) + Filter(b, v)
    decreases |b|
  {
    if b == [] {
      assert a + b == a;
    } else {
      var init := b[..|b| - 1];
      FilterConcat(a, init, v);
      assert (a + b)[..|a + b| - 1] == a + init;
    }
  }

  lemma {:induction false} FilterNone(s: seq<Entry>, v: nat)
    requires forall i | 0 <= i < |s| :: s[i].1 != v
    ensures Filter(s, v) == []
    decreases |s|
  {
    if s != [] {
      FilterNone(s[..|s| - 1], v);
    }
  }

  lemma DistinctCons(a: Entry, t: seq<Entry>)
    requires DistinctKeys(t) && forall e | e in t :: e.0 != a.0
    ensures DistinctKeys([a] + t)
  {
    var s := [a] + t;
    forall i, j | 0 <= i < j < |s|
      ensures s[i].0 != s[j].0
    {
      if i == 0 {
        assert s[j] == t[j - 1] && t[j - 1] in t;
      } else {
        assert s[i] == t[i - 1] && s[j] == t[j - 1];
      }
    }
  }

  /** Inserting adds exactly x. */
  lemma {:induction false} InsertPerm(s: seq<Entry>, x: Entry)
    ensures multiset(Insert(s, x)) == multiset(s) + multiset{x}
    decreases |s|
  {
    if s != [] && s[0].1 >= x.1 {
      InsertPerm(s[1..], x);
      assert s == [s[0]] + s[1..];
    }
  }

  /** Inserting into a list sorted by falling count keeps it sorted. */
  lemma {:induction false} InsertSorted(s: seq<Entry>, x: Entry)
    requires NonIncreasing(s)
    ensures NonIncreasing(Insert(s, x))
    decreases |s|
  {
    if s != [] && s[0].1 >= x.1 {
      var rest := s[1..];
      InsertSorted(rest, x);
      InsertPerm(rest, x);
      var r := Insert(rest, x);
      forall e | e in r
        ensures e.1 <= s[0].1
      {
        assert e in multiset(r);
        if e != x {
          var k :| 0 <= k < |rest| && rest[k] == e;
          assert s[k + 1] == e;
        }
      }
      SortedCons(s[0], r);
    }
  }

  lemma SortedCons(a: Entry, r: seq<Entry>)
    requires NonIncreasing(r) && forall e | e in r :: e.1 <= a.1
    ensures NonIncreasing([a] + r)
  {
    var t := [a] + r;
    forall i, j | 0 <= i < j < |t|
      ensures t[i].1 >= t[j].1
    {
      assert t[j] == r[j - 1] && r[j - 1] in r;
      if i > 0 {
        assert t[i] == r[i - 1];
      }
    }
  }

  /** Inserted after the entries of equal count, x comes last among them. */
  lemma {:induction false} InsertFilter(s: seq<Entry>, x: Entry, v: nat)
    requires NonIncreasing(s)
    ensures Filter(Insert(s, x), v) == Filter(s, v) + (if x.1 == v then [x] else [])
    decreases |s|
  {
    assert [x][..0] == [];
    if s == [] {
    } else if s[0].1 >= x.1 {
      var rest := s[1..];
      assert s == [s[0]] + rest;
      InsertFilter(rest, x, v);
      FilterConcat([s[0]], Insert(rest, x), v);
      FilterConcat([s[0]], rest, v);
    } else {
      FilterConcat([x], s, v);
      if x.1 == v {
        FilterNone(s, v);
      }
    }
  }

  /** Inserting a new symbol keeps the keys distinct. */
  lemma {:induction false} InsertDistinct(s: seq<Entry>, x: Entry)
    requires DistinctKeys(s) && forall e | e in s :: e.0 != x.0
    ensures DistinctKeys(Insert(s, x))
    decreases |s|
  {
    if s == [] {
    } else if s[0].1 >= x.1 {
      var rest := s[1..];
      InsertDistinct(rest, x);
      InsertPerm(rest, x);
      var r := Insert(rest, x);
      forall e | e in r
        ensures e.0 != s[0].0
      {
        assert e in multiset(r);
        if e != x {
          var k :| 0 <= k < |rest| && rest[k] == e;
          assert s[k + 1] == e;
        } else {
          assert s[0] in s;
        }
      }
      DistinctCons(s[0], r);
    } else {
      DistinctCons(x, s);
    }
  }

  /** The stable descending sort: sorted by falling count, a permutation of its
      input, entries of equal count in their input order, keys kept distinct. */
  lemma {:induction false} SortDescSpec(items: seq<Entry>)
    ensures NonIncreasing(SortDesc(items))
    ensures multiset(SortDesc(items)) == multiset(items)
    ensures forall v :: Filter(SortDesc(items), v) == Filter(items, v)
    ensures DistinctKeys(items) ==> DistinctKeys(SortDesc(items))
    decreases |items|
  {
    if items != [] {
      var init := items[..|items| - 1];
      var x := items[|items| - 1];
      var sorted := SortDesc(init);
      assert items == init + [x];
      SortDescSpec(init);
      InsertSorted(sorted, x);
      InsertPerm(sorted, x);
      forall v
        ensures Filter(SortDesc(items), v) == Filter(items, v)
      {
        InsertFilter(sorted, x, v);
      }
      if DistinctKeys(items) {
        assert DistinctKeys(init);
        forall e | e in sorted
          ensures e.0 != x.0
        {
          assert e in multiset(init);
          var k :| 0 <= k < |init| && init[k] == e;
          assert items[k] == e;
        }
        InsertDistinct(sorted, x);
      }
    }
  }

  /** `calculate_frequencies` with whole counts: the tally sorted by falling count. */
  function Frequencies(m: string): seq<Entry>
  {
    SortDesc(Tally(m))
  }

  /** The frequencies hold one entry per distinct symbol of m with its count,
      sorted by falling count, ties in order of first occurrence. */
  lemma FrequenciesSpec(m: string)
    ensures var f := Frequencies(m);
      DistinctKeys(f) && AllPositive(f) && NonIncreasing(f) && |f| == |Occurrences(m)| &&
      (forall c :: c in SymSet(f) <==> c in m) &&
      (forall e | e in f :: e.1 == multiset(m)[e.0]) &&
      (forall v :: Filter(f, v) == Filter(Tally(m), v))
  {
    var f := Frequencies(m);
    TallySpec(m);
    SortDescSpec(Tally(m));
    assert |f| == |multiset(f)| == |multiset(Tally(m))| == |Tally(m)|;
    forall e
      ensures e in f <==> e in Tally(m)
    {
      assert e in f <==> e in multiset(f);
      assert e in Tally(m) <==> e in multiset(Tally(m));
    }
  }

  /** `calculate_frequencies`: counts each symbol in a dict, adding keys in order
      of first occurrence, then sorts the items by falling count. */
  method CalculateFrequencies(message: string) returns (freq: seq<Entry>)
    ensures freq == Frequencies(message)
  {
    var keys: seq<char> := [];
    var counts: map<char, nat> := map[];
    for k := 0 to |message|
      invariant keys == Occurrences(message[..k])
      invariant forall c :: c in counts <==> c in message[..k]
      invariant forall c | c in counts :: counts[c] == multiset(message[..k])[c]
    {
      var ch := message[k];
      CountStep(message, k);
      if ch in counts {
        counts := counts[ch := counts[ch] + 1];
      } else {
        keys := keys + [ch];
        counts := counts[ch := 1];
      }
    }
    assert message[..|message|] == message;
    CountedTally(message, keys, counts);
    freq := SortDesc(Items(keys, counts));
  }

  /** Reading one more character: it becomes a key if it is new, and its count grows by one. */
  lemma CountStep(m: string, k: nat)
    requires k < |m|
    ensures Occurrences(m[..k + 1]) == if m[k] in m[..k] then Occurrences(m[..k]) else Occurrences(m[..k]) + [m[k]]
    ensures multiset(m[..k + 1]) == multiset(m[..k]) + multiset{m[k]}
    ensures forall c :: c in m[..k + 1] <==> c in m[..k] || c == m[k]
  {
    assert m[..k + 1] == m[..k] + [m[k]];
    assert m[..k + 1][..k] == m[..k];
  }

  /** The items of a dict given as its keys in order and its values. */
  function Items(keys: seq<char>, counts: map<char, nat>): seq<Entry>
    requires forall i | 0 <= i < |keys| :: keys[i] in counts
  {
    seq(|keys|, i requires 0 <= i < |keys| => (keys[i], counts[keys[i]]))
  }

  /** The dict the counting loop ends with holds the tally. */
  lemma CountedTally(m: string, keys: seq<char>, counts: map<char, nat>)
    requires keys == Occurrences(m)
    requires forall c :: c in counts <==> c in m
    requires forall c | c in counts :: counts[c] == multiset(m)[c]
    ensures (forall i | 0 <= i < |keys| :: keys[i] in counts) && Items(keys, counts) == Tally(m)
  {
    OccurrencesSpec(m);
  }

  // ------------------------------------------------------------------ split

  function Sum(items: seq<Entry>): nat
    decreases |items|
  {
    if items == [] then 0 else Sum(items[..|items| - 1]) + items[|items| - 1].1
  }

  lemma SumSnoc(items: seq<Entry>, x: Entry)
    ensures Sum(items + [x]) == Sum(items) + x.1
  {
    assert (items + [x])[..|items|] == items;
  }

  datatype Halves = Halves(high: seq<Entry>, low: seq<Entry>)

  /** The groups once the items have been scanned: an item joins high when the
      running total of high plus its count is at most half the total, or when it
      is the first item; otherwise it joins low. The scan does not stop at the
      first item that goes low. */
  function SplitOf(items: seq<Entry>, total: nat): Halves
    decreases |items|
  {
    if items == [] then Halves([], [])
    else
      var s := SplitOf(items[..|items| - 1], total);
      var x := items[|items| - 1];
      if 2 * (Sum(s.high) + x.1) <= total || |items| == 1 then Halves(s.high + [x], s.low)
      else Halves(s.high, s.low + [x])
  }

  /** `split_frequency` on the items in dict order. */
  function Split(items: seq<Entry>): Halves
  {
    SplitOf(items, Sum(items))
  }

  /** `split_frequency`: one pass over the items with a running total of high. */
  method SplitFrequency(freq: seq<Entry>) returns (high: seq<Entry>, low: seq<Entry>)
    ensures Halves(high, low) == Split(freq)
  {
    var total := Sum(freq);
    high, low := [], [];
    var running := 0;
    for i := 0 to |freq|
      invariant Halves(high, low) == SplitOf(freq[..i], total)
      invariant running == Sum(high)
    {
      assert freq[..i + 1][..i] == freq[..i];
      var f := freq[i].1;
      if 2 * (running + f) <= total || i == 0 {
        SumSnoc(high, freq[i]);
        high := high + [freq[i]];
        running := running + f;
      } else {
        low := low + [freq[i]];
      }
    }
    assert freq[..|freq|] == freq;
  }

  lemma MultisetSnoc<T>(s: seq<T>)
    requires s != []
    ensures multiset(s) == multiset(s[..|s| - 1]) + multiset{s[|s| - 1]}
  {
    assert s == s[..|s| - 1] + [s[|s| - 1]];
  }

  /** Adding the next item to one group adds it to the groups' members. */
  lemma PermStep(h: seq<Entry>, l: seq<Entry>, prefix: seq<Entry>, x: Entry, toHigh: bool)
    requires multiset(h) + multiset(l) == multiset(prefix)
    ensures var s := if toHigh then Halves(h + [x], l) else Halves(h, l + [x]);
      multiset(s.high) + multiset(s.low) == multiset(prefix) + multiset{x}
  {
    if toHigh {
      assert multiset(h + [x]) == multiset(h) + multiset{x};
    } else {
      assert multiset(l + [x]) == multiset(l) + multiset{x};
      assert multiset(h) + (multiset(l) + multiset{x}) == (multiset(h) + multiset(l)) + multiset{x};
    }
  }

  /** The groups share out the items: together they hold each item once. */
  lemma {:induction false} SplitPerm(items: seq<Entry>, total: nat)
    ensures var s := SplitOf(items, total);
      multiset(s.high) + multiset(s.low) == multiset(items)
    decreases |items|
  {
    if items != [] {
      var init := items[..|items| - 1];
      var s := SplitOf(init, total);
      var x := items[|items| - 1];
      SplitPerm(init, total);
      PermStep(s.high, s.low, init, x, 2 * (Sum(s.high) + x.1) <= total || |items| == 1);
      MultisetSnoc(items);
    }
  }

  /** The groups' totals add up to the total of the items. */
  lemma {:induction false} SplitSum(items: seq<Entry>, total: nat)
    ensures var s := SplitOf(items, total);
      Sum(s.high) + Sum(s.low) == Sum(items)
    decreases |items|
  {
    if items != [] {
      var init := items[..|items| - 1];
      var s := SplitOf(init, total);
      var x := items[|items| - 1];
      SplitSum(init, total);
      SumSnoc(s.high, x);
      SumSnoc(s.low, x);
    }
  }

  /** The first item always goes high, and high's total stays at most half of
      the total unless high is that first item alone. */
  lemma {:induction false} SplitFirst(items: seq<Entry>, total: nat)
    requires items != []
    ensures var s := SplitOf(items, total);
      |s.high| > 0 && s.high[0] == items[0] && (2 * Sum(s.high) <= total || s.high == [items[0]])
    decreases |items|
  {
    var init := items[..|items| - 1];
    if |items| > 1 {
      var s := SplitOf(init, total);
      SplitFirst(init, total);
      SumSnoc(s.high, items[|items| - 1]);
    } else {
      assert SplitOf(init, total) == Halves([], []);
    }
  }

  /** The last item of a list with distinct keys has a symbol its prefix lacks. */
  lemma DistinctInit(items: seq<Entry>)
    requires items != [] && DistinctKeys(items)
    ensures var init := items[..|items| - 1];
      DistinctKeys(init) && items[|items| - 1].0 !in SymSet(init) &&
      SymSet(items) == SymSet(init) + {items[|items| - 1].0}
  {
    var init, x := items[..|items| - 1], items[|items| - 1];
    assert items == init + [x];
    DistinctSnoc(init, x);
    SymSetSnoc(init, x);
  }

  /** Adding the next item, whose symbol is new, to one group keeps the groups'
      keys distinct and apart. */
  lemma DistinctStep(h: seq<Entry>, l: seq<Entry>, prefix: seq<Entry>, x: Entry, toHigh: bool)
    requires DistinctKeys(h) && DistinctKeys(l) && x.0 !in SymSet(prefix)
    requires SymSet(h) !! SymSet(l) && SymSet(h) + SymSet(l) == SymSet(prefix)
    ensures var s := if toHigh then Halves(h + [x], l) else Halves(h, l + [x]);
      DistinctKeys(s.high) && DistinctKeys(s.low) && SymSet(s.high) !! SymSet(s.low) &&
      SymSet(s.high) + SymSet(s.low) == SymSet(prefix) + {x.0}
  {
    if toHigh {
      SymSetSnoc(h, x);
      DistinctSnoc(h, x);
    } else {
      SymSetSnoc(l, x);
      DistinctSnoc(l, x);
    }
  }

  /** Distinct keys stay distinct in each group, and no symbol is in both. */
  lemma {:induction false} SplitDistinct(items: seq<Entry>, total: nat)
    requires DistinctKeys(items)
    ensures var s := SplitOf(items, total);
      DistinctKeys(s.high) && DistinctKeys(s.low) && SymSet(s.high) !! SymSet(s.low) &&
      SymSet(s.high) + SymSet(s.low) == SymSet(items)
    decreases |items|
  {
    if items != [] {
      var init := items[..|items| - 1];
      var s := SplitOf(init, total);
      var x := items[|items| - 1];
      DistinctInit(items);
      SplitDistinct(init, total);
      DistinctStep(s.high, s.low, init, x, 2 * (Sum(s.high) + x.1) <= total || |items| == 1);
    }
  }

  lemma SumPositive(items: seq<Entry>)
    requires AllPositive(items) && items != []
    ensures Sum(items) > 0
  {
    assert items[|items| - 1] in items;
  }

  /** With two or more items of positive count, both groups are non-empty, so
      each is smaller than the input: the recursion on them terminates. */
  lemma SplitShrinks(items: seq<Entry>)
    requires |items| >= 2 && AllPositive(items)
    ensures var s := Split(items);
      0 < |s.high| < |items| && 0 < |s.low| < |items| &&
      AllPositive(s.high) && AllPositive(s.low) && SymSet(s.high) + SymSet(s.low) == SymSet(items)
  {
    var s := Split(items);
    SplitPerm(items, Sum(items));
    SplitSum(items, Sum(items));
    SplitFirst(items, Sum(items));
    SumPositive(items);
    GroupsNonEmpty(items, s.high, s.low);
    GroupsMembers(items, s.high, s.low);
  }

  /** Groups that share out two or more items of positive total, the first of
      them holding at most half the total unless it is a single item, are both
      non-empty. */
  lemma GroupsNonEmpty(items: seq<Entry>, high: seq<Entry>, low: seq<Entry>)
    requires |items| >= 2 && Sum(items) > 0 && |high| > 0
    requires multiset(high) + multiset(low) == multiset(items) && Sum(high) + Sum(low) == Sum(items)
    requires 2 * Sum(high) <= Sum(items) || |high| == 1
    ensures 0 < |high| < |items| && 0 < |low| < |items|
  {
    assert |high| + |low| == |items| by {
      assert |multiset(high) + multiset(low)| == |multiset(items)|;
    }
    if 2 * Sum(high) <= Sum(items) {
      assert Sum(low) > 0;
    }
  }

  /** Groups that share out the items hold exactly the items' entries and symbols. */
  lemma GroupsMembers(items: seq<Entry>, high: seq<Entry>, low: seq<Entry>)
    requires multiset(high) + multiset(low) == multiset(items) && AllPositive(items)
    ensures AllPositive(high) && AllPositive(low) && SymSet(high) + SymSet(low) == SymSet(items)
  {
    forall e | e in items
      ensures e in high || e in low
    {
      assert e in multiset(items);
    }
    forall e | e in high || e in low
      ensures e in items
    {
      assert e in multiset(high) + multiset(low);
    }
    forall c | c in SymSet(items)
      ensures c in SymSet(high) + SymSet(low)
    {
      var e :| e in items && e.0 == c;
    }
  }

  // ------------------------------------------------------------- code table

  /** The code each symbol gets from the recursion on items: empty for at most
      one item, otherwise 0 followed by its code in high, or 1 followed by its
      code in low. */
  function Codes(items: seq<Entry>): (codes: map<char, string>)
    requires AllPositive(items)
    ensures codes.Keys == SymSet(items)
    decreases |items|
  {
    if |items| <= 1 then map c | c in SymSet(items) :: ""
    else
      var s := Split(items);
      SplitShrinks(items);
      var high, low := Codes(s.high), Codes(s.low);
      map c | c in SymSet(items) :: if c in high then "0" + high[c] else "1" + low[c]
  }

  /** No code is a prefix of another symbol's code. */
  ghost predicate PrefixFree(codes: map<char, string>)
  {
    forall a, b | a in codes && b in codes && a != b :: !(codes[a] <= codes[b])
  }

  /** Equal first characters can be dropped from both sides of a prefix. */
  lemma ConsPrefix(x: char, y: char, p: string, q: string)
    requires [x] + p <= [y] + q
    ensures x == y && p <= q
  {
    assert ([y] + q)[..|p| + 1] == [x] + p;
    assert ([x] + p)[0] == x && ([y] + q)[0] == y;
    assert q[..|p|] == ([y] + q)[1..|p| + 1] == ([x] + p)[1..] == p;
  }

  /** Codes that put 0 before the codes of one prefix-free table and 1 before
      those of another are prefix-free and non-empty. */
  lemma PrefixFreeJoin(codes: map<char, string>, high: map<char, string>, low: map<char, string>)
    requires PrefixFree(high) && PrefixFree(low)
    requires forall c | c in codes :: if c in high then codes[c] == "0" + high[c] else c in low && codes[c] == "1" + low[c]
    ensures PrefixFree(codes) && forall c | c in codes :: |codes[c]| >= 1
  {
    forall a, b | a in codes && b in codes && a != b
      ensures !(codes[a] <= codes[b])
    {
      if codes[a] <= codes[b] {
        if a in high && b in high {
          ConsPrefix('0', '0', high[a], high[b]);
        } else if a !in high && b !in high {
          ConsPrefix('1', '1', low[a], low[b]);
        } else if a in high {
          ConsPrefix('0', '1', high[a], low[b]);
        } else {
          ConsPrefix('1', '0', low[a], high[b]);
        }
      }
    }
  }

  /** One level of the recursion: a symbol of high gets 0 before its code in high,
      any other symbol 1 before its code in low. */
  lemma CodesUnfold(items: seq<Entry>)
    requires |items| >= 2 && AllPositive(items)
    ensures var s := Split(items);
      AllPositive(s.high) && AllPositive(s.low) && |s.high| < |items| && |s.low| < |items| &&
      var high, low := Codes(s.high), Codes(s.low);
      forall c | c in Codes(items) ::
        if c in high then Codes(items)[c] == "0" + high[c] else c in low && Codes(items)[c] == "1" + low[c]
  {
    SplitShrinks(items);
  }

  /** The table is prefix-free, and with two or more items every code is non-empty. */
  lemma {:induction false} CodesPrefixFree(items: seq<Entry>)
    requires AllPositive(items)
    ensures PrefixFree(Codes(items))
    ensures |items| >= 2 ==> forall c | c in Codes(items) :: |Codes(items)[c]| >= 1
    decreases |items|
  {
    if |items| >= 2 {
      var s := Split(items);
      CodesUnfold(items);
      CodesPrefixFree(s.high);
      CodesPrefixFree(s.low);
      PrefixFreeJoin(Codes(items), Codes(s.high), Codes(s.low));
    } else if |items| == 1 {
      assert SymSet(items) == {items[0].0};
    } else {
      assert SymSet(items) == {};
    }
  }

  /** A lone symbol gets the empty code. */
  lemma CodesSingle(items: seq<Entry>)
    requires |items| == 1 && AllPositive(items)
    ensures Codes(items) == map[items[0].0 := ""]
  {
    assert SymSet(items) == {items[0].0};
  }

  /** Every code is non-empty exactly when there are two or more symbols. */
  lemma CodesNonEmpty(items: seq<Entry>)
    requires AllPositive(items) && |items| >= 1
    ensures (forall c | c in Codes(items) :: Codes(items)[c] != "") <==> |items| >= 2
  {
    if |items| == 1 {
      CodesSingle(items);
      assert items[0].0 in Codes(items);
    } else {
      CodesPrefixFree(items);
    }
  }

  /** `for char in group: code_table_rec[char] += bit`. */
  method AppendToCodes(table: map<char, string>, group: seq<Entry>, bit: char) returns (result: map<char, string>)
    requires DistinctKeys(group) && SymSet(group) <= table.Keys
    ensures result.Keys == table.Keys
    ensures forall c | c in table :: result[c] == if c in SymSet(group) then table[c] + [bit] else table[c]
  {
    result := table;
    for i := 0 to |group|
      invariant result.Keys == table.Keys
      invariant forall c | c in table :: result[c] == if c in SymSet(group[..i]) then table[c] + [bit] else table[c]
    {
      var ch := group[i].0;
      assert group[..i + 1] == group[..i] + [group[i]];
      SymSetSnoc(group[..i], group[i]);
      forall e | e in group[..i]
        ensures e.0 != ch
      {
        var j :| 0 <= j < i && group[..i][j] == e;
        assert group[j] == e;
      }
      assert group[i] in group;
      result := result[ch := result[ch] + [bit]];
    }
    assert group[..|group|] == group;
  }


  /** `build_code_table_rec`: with two or more items, splits them, appends 0 to
      the codes of high and 1 to those of low, and recurses into both groups,
      updating the one table all levels share. */
  method BuildCodeTableRec(freq: seq<Entry>, table: map<char, string>) returns (result: map<char, string>)
    requires AllPositive(freq) && DistinctKeys(freq) && SymSet(freq) <= table.Keys
    ensures result.Keys == table.Keys
    ensures forall c | c in table :: result[c] == if c in SymSet(freq) then table[c] + Codes(freq)[c] else table[c]
    decreases |freq|
  {
    if |freq| <= 1 {
      forall c | c in SymSet(freq)
        ensures table[c] + Codes(freq)[c] == table[c]
      {
        assert Codes(freq)[c] == "";
      }
      return table;
    }
    var high, low := SplitFrequency(freq);
    SplitShrinks(freq);
    SplitDistinct(freq, Sum(freq));
    var t1 := AppendToCodes(table, high, '0');
    var t2 := AppendToCodes(t1, low, '1');
    var t3 := BuildCodeTableRec(high, t2);
    result := BuildCodeTableRec(low, t3);
    CodesUnfold(freq);
    forall c | c in table
      ensures result[c] == if c in SymSet(freq) then table[c] + Codes(freq)[c] else table[c]
    {
      if c in SymSet(high) {
        ConcatAssoc(table[c], "0", Codes(high)[c]);
      } else if c in SymSet(low) {
        ConcatAssoc(table[c], "1", Codes(low)[c]);
      }
    }
  }

  /** A code table: the dict's keys in order and the code of each. */
  datatype CodeTable = CodeTable(keys: seq<char>, codes: map<char, string>)

  /** A dict: distinct keys, each with a code. */
  ghost predicate WellFormed(t: CodeTable)
  {
    (forall c :: c in t.keys <==> c in t.codes) &&
    forall i, j | 0 <= i < j < |t.keys| :: t.keys[i] != t.keys[j]
  }

  /** Appending codes to empty ones gives those codes. */
  lemma FromEmptyCodes(start: map<char, string>, result: map<char, string>, codes: map<char, string>)
    requires start.Keys == result.Keys == codes.Keys
    requires forall c | c in start :: start[c] == [] && result[c] == start[c] + codes[c]
    ensures result == codes
  {
    forall c | c in start
      ensures result[c] == codes[c]
    {
      assert start[c] + codes[c] == codes[c];
    }
  }

  /** `build_code_table`: every symbol starts with the empty code, in frequency order. */
  method BuildCodeTable(freq: seq<Entry>) returns (table: CodeTable)
    requires AllPositive(freq) && DistinctKeys(freq)
    ensures table == CodeTable(Symbols(freq), Codes(freq))
  {
    var start := map c | c in SymSet(freq) :: "";
    var codes := BuildCodeTableRec(freq, start);
    FromEmptyCodes(start, codes, Codes(freq));
    table := CodeTable(Symbols(freq), codes);
  }

  /** The table the compressor builds for a message. */
  function TableOf(m: string): (t: CodeTable)
    ensures WellFormed(t) && t.codes.Keys == SymSet(Frequencies(m))
  {
    FrequenciesSpec(m);
    var f := Frequencies(m);
    var t := CodeTable(Symbols(f), Codes(f));
    assert forall c :: c in t.keys <==> c in SymSet(f) by {
      forall c | c in SymSet(f)
        ensures c in t.keys
      {
        var e :| e in f && e.0 == c;
        var i :| 0 <= i < |f| && f[i] == e;
        assert t.keys[i] == c;
      }
    }
    t
  }

  // ------------------------------------------------------- compress, decompress

  /** `''.join(code_table[char] for char in message)`: the codes in message order;
      a symbol with no code is a KeyError. */
  function Encoded(codes: map<char, string>, message: string): Result<string>
    decreases |message|
  {
    if message == [] then Ok([])
    else if message[0] !in codes then Err(UnknownSymbol)
    else
      match Encoded(codes, message[1..])
      case Ok(rest) => Ok(codes[message[0]] + rest)
      case Err(e) => Err(e)
  }

  /** Compressing fails exactly when some symbol of the message has no code. */
  lemma {:induction false} EncodedOk(codes: map<char, string>, message: string)
    ensures Encoded(codes, message).Ok? <==> forall i | 0 <= i < |message| :: message[i] in codes
    ensures Encoded(codes, message).Err? ==> Encoded(codes, message).error == UnknownSymbol
    decreases |message|
  {
    if message != [] {
      EncodedOk(codes, message[1..]);
      assert forall i | 1 <= i < |message| :: message[i] == message[1..][i - 1];
    }
  }

  /** The list of one-character strings `list(s)` gives. */
  function Explode(s: string): (r: seq<string>)
    ensures |r| == |s| && forall i | 0 <= i < |r| :: r[i] == [s[i]]
  {
    seq(|s|, i requires 0 <= i < |s| => [s[i]])
  }

  /** `''.join(map(str, items))` on a list of strings. */
  function Join(items: seq<string>): string
    decreases |items|
  {
    if items == [] then [] else items[0] + Join(items[1..])
  }

  /** Joining the characters of a string gives the string back. */
  lemma {:induction false} JoinExplode(s: string)
    ensures Join(Explode(s)) == s
    decreases |s|
  {
    if s != [] {
      JoinExplode(s[1..]);
      assert Explode(s)[1..] == Explode(s[1..]);
      assert s == [s[0]] + s[1..];
    }
  }

  /** `{v: k for k, v in code_table.items()}`: a later key wins a shared code. */
  function Reverse(keys: seq<char>, codes: map<char, string>): map<string, char>
    requires forall i | 0 <= i < |keys| :: keys[i] in codes
    decreases |keys|
  {
    if keys == [] then map[]
    else
      var last := keys[|keys| - 1];
      Reverse(keys[..|keys| - 1], codes)[codes[last] := last]
  }

  /** With distinct keys and distinct codes, the reverse table maps each code to
      its symbol and holds nothing else. */
  lemma {:induction false} ReverseSpec(keys: seq<char>, codes: map<char, string>)
    requires forall i | 0 <= i < |keys| :: keys[i] in codes
    requires forall i, j | 0 <= i < j < |keys| :: keys[i] != keys[j] && codes[keys[i]] != codes[keys[j]]
    ensures var rev := Reverse(keys, codes);
      (forall i | 0 <= i < |keys| :: codes[keys[i]] in rev && rev[codes[keys[i]]] == keys[i]) &&
      (forall w | w in rev :: rev[w] in keys && codes[rev[w]] == w)
    decreases |keys|
  {
    if keys != [] {
      var init := keys[..|keys| - 1];
      ReverseSpec(init, codes);
    }
  }

  /** The decoder's scan: each bit goes into the buffer; a buffer that is a code
      is replaced by its symbol and emptied. Bits left in the buffer at the end
      are dropped. */
  function Greedy(rev: map<string, char>, bits: string, current: string): string
    decreases |bits|
  {
    if bits == [] then []
    else
      var code := current + [bits[0]];
      if code in rev then [rev[code]] + Greedy(rev, bits[1..], [])
      else Greedy(rev, bits[1..], code)
  }

  /** Bits that never complete a code leave nothing behind. */
  lemma {:induction false} TrailingDropped(rev: map<string, char>, bits: string, current: string)
    requires forall j | 1 <= j <= |bits| :: current + bits[..j] !in rev
    ensures Greedy(rev, bits, current) == []
    decreases |bits|
  {
    if bits != [] {
      var code := current + [bits[0]];
      assert code == current + bits[..1];
      forall j | 1 <= j <= |bits[1..]|
        ensures code + bits[1..][..j] !in rev
      {
        assert code + bits[1..][..j] == current + bits[..j + 1];
      }
      TrailingDropped(rev, bits[1..], code);
    }
  }

  /** Reading a code whose proper prefixes are no codes, from its i-th bit on with
      the first i bits buffered, yields its symbol and empties the buffer. */
  lemma {:induction false} GreedyCode(rev: map<string, char>, w: string, rest: string, i: nat)
    requires i < |w| && w in rev
    requires forall j | 1 <= j < |w| :: w[..j] !in rev
    ensures Greedy(rev, w[i..] + rest, w[..i]) == [rev[w]] + Greedy(rev, rest, [])
    decreases |w| - i
  {
    var bits := w[i..] + rest;
    assert bits[0] == w[i] && bits[1..] == w[i + 1..] + rest;
    assert w[..i] + [w[i]] == w[..i + 1];
    if i + 1 < |w| {
      GreedyCode(rev, w, rest, i + 1);
    } else {
      assert w[..i + 1] == w && w[i + 1..] + rest == rest;
    }
  }

  /** Codes the reverse table decodes one at a time. */
  ghost predicate Decodable(rev: map<string, char>, codes: map<char, string>)
  {
    forall c | c in codes ::
      codes[c] != [] && codes[c] in rev && rev[codes[c]] == c &&
      forall j | 1 <= j < |codes[c]| :: codes[c][..j] !in rev
  }

  /** Decoding a compressed message followed by other bits gives the message,
      then whatever those bits decode to. */
  lemma {:induction false} DecodeEncoded(rev: map<string, char>, codes: map<char, string>, m: string, tail: string)
    requires Decodable(rev, codes) && Encoded(codes, m).Ok?
    ensures Greedy(rev, Encoded(codes, m).value + tail, []) == m + Greedy(rev, tail, [])
    decreases |m|
  {
    if m != [] {
      assert m[0] in codes;
      var w := codes[m[0]];
      assert w in rev && rev[w] == m[0];
      assert Encoded(codes, m[1..]).Ok?;
      var rest := Encoded(codes, m[1..]).value;
      assert Encoded(codes, m).value == w + rest;
      DecodeEncoded(rev, codes, m[1..], tail);
      assert w + rest + tail == w[0..] + (rest + tail);
      assert w[..0] == [];
      GreedyCode(rev, w, rest + tail, 0);
      calc {
        Greedy(rev, Encoded(codes, m).value + tail, []);
        Greedy(rev, w[0..] + (rest + tail), w[..0]);
        [m[0]] + Greedy(rev, rest + tail, []);
        [m[0]] + (m[1..] + Greedy(rev, tail, []));
        { assert m == [m[0]] + m[1..]; }
        m + Greedy(rev, tail, []);
      }
    } else {
      assert Encoded(codes, m).value + tail == tail;
    }
  }

  /** A prefix-free table with non-empty, distinct codes is decodable through its reverse. */
  lemma TableDecodable(t: CodeTable)
    requires WellFormed(t) && PrefixFree(t.codes)
    requires forall c | c in t.codes :: t.codes[c] != []
    ensures Decodable(Reverse(t.keys, t.codes), t.codes)
  {
    var rev := Reverse(t.keys, t.codes);
    forall i, j | 0 <= i < j < |t.keys|
      ensures t.codes[t.keys[i]] != t.codes[t.keys[j]]
    {
      assert t.codes[t.keys[i]] <= t.codes[t.keys[i]];
    }
    ReverseSpec(t.keys, t.codes);
    forall c | c in t.codes
      ensures t.codes[c] in rev && rev[t.codes[c]] == c
    {
      var i :| 0 <= i < |t.keys| && t.keys[i] == c;
    }
    forall c, j | c in t.codes && 1 <= j < |t.codes[c]|
      ensures t.codes[c][..j] !in rev
    {
      var w := t.codes[c][..j];
      forall d | d in t.codes
        ensures t.codes[d] != w
      {
        if d != c {
          assert !(t.codes[d] <= t.codes[c]);
        }
      }
    }
  }

  /** For a message with two or more distinct symbols, decompressing its
      compressed form, followed by any bits, gives the message back, then what
      those bits decode to. */
  lemma RoundTrip(message: string, tail: string)
    requires |Occurrences(message)| >= 2
    ensures var t := TableOf(message);
      var rev := Reverse(t.keys, t.codes);
      Encoded(t.codes, message).Ok? &&
      Greedy(rev, Encoded(t.codes, message).value + tail, []) == message + Greedy(rev, tail, [])
  {
    var t := TableOf(message);
    MessageTable(message, t);
    TableDecodable(t);
    DecodeEncoded(Reverse(t.keys, t.codes), t.codes, message, tail);
  }

  /** The table built for a message with two or more distinct symbols is
      prefix-free, codes every symbol of the message, and no code is empty. */
  lemma MessageTable(message: string, t: CodeTable)
    requires |Occurrences(message)| >= 2 && t == TableOf(message)
    ensures WellFormed(t) && PrefixFree(t.codes) && Encoded(t.codes, message).Ok?
    ensures forall c | c in t.codes :: t.codes[c] != []
  {
    var f := Frequencies(message);
    FrequenciesSpec(message);
    CodesPrefixFree(f);
    assert t.codes == Codes(f);
    EncodedOk(t.codes, message);
  }

  /** A message of one repeated symbol compresses to nothing, so decompressing
      gives the empty string rather than the message. */
  lemma OneSymbolLost(message: string)
    requires |Occurrences(message)| == 1
    ensures var t := TableOf(message);
      message != [] && Encoded(t.codes, message) == Ok([]) &&
      Greedy(Reverse(t.keys, t.codes), Encoded(t.codes, message).value, []) == []
  {
    var f := Frequencies(message);
    FrequenciesSpec(message);
    CodesSingle(f);
    forall i | 0 <= i < |message|
      ensures message[i] == f[0].0
    {
      assert message[i] in SymSet(f);
      var e :| e in f && e.0 == message[i];
    }
    OneSymbolEncoded(TableOf(message).codes, message, f[0].0);
  }

  lemma {:induction false} OneSymbolEncoded(codes: map<char, string>, m: string, c: char)
    requires c in codes && codes[c] == [] && forall i | 0 <= i < |m| :: m[i] == c
    ensures Encoded(codes, m) == Ok([])
    decreases |m|
  {
    if m != [] {
      assert forall i | 0 <= i < |m[1..]| :: m[1..][i] == m[i + 1];
      OneSymbolEncoded(codes, m[1..], c);
      assert codes[m[0]] + Encoded(codes, m[1..]).value == [];
    }
  }

  /** The table with a one-bit code "0" for a lone symbol, so that every
      symbol of every message gets a code of at least one bit. */
  function IntendedTableOf(m: string): (t: CodeTable)
    ensures WellFormed(t) && t.codes.Keys == SymSet(Frequencies(m))
    ensures |Occurrences(m)| != 1 ==> t == TableOf(m)
  {
    var t := TableOf(m);
    FrequenciesSpec(m);
    if |t.keys| == 1 then CodeTable(t.keys, map[t.keys[0] := "0"]) else t
  }

  /** With the intended table, every non-empty message survives compression and
      decompression, followed by any bits. */
  lemma IntendedRoundTrip(message: string, tail: string)
    requires message != []
    ensures var t := IntendedTableOf(message);
      var rev := Reverse(t.keys, t.codes);
      Encoded(t.codes, message).Ok? &&
      Greedy(rev, Encoded(t.codes, message).value + tail, []) == message + Greedy(rev, tail, [])
  {
    OccurrencesSpec(message);
    assert message[0] in Occurrences(message);
    if |Occurrences(message)| >= 2 {
      RoundTrip(message, tail);
    } else {
      var t := IntendedTableOf(message);
      LoneSymbolTable(message, t);
      OneCodeTable(t, message);
      TableDecodable(t);
      DecodeEncoded(Reverse(t.keys, t.codes), t.codes, message, tail);
    }
  }

  /** The intended table of a message of one repeated symbol is that symbol
      with code "0". */
  lemma LoneSymbolTable(message: string, t: CodeTable)
    requires |Occurrences(message)| == 1 && t == IntendedTableOf(message)
    ensures |t.keys| == 1 && t.codes == map[t.keys[0] := "0"]
    ensures forall i | 0 <= i < |message| :: message[i] == t.keys[0]
  {
    FrequenciesSpec(message);
    assert |t.keys| == 1;
    forall i | 0 <= i < |message|
      ensures message[i] == t.keys[0]
    {
      assert message[i] in t.codes;
    }
  }

  /** A one-symbol table whose code is "0" is decodable and codes any message
      made of that symbol. */
  lemma OneCodeTable(t: CodeTable, m: string)
    requires |t.keys| == 1 && t.codes == map[t.keys[0] := "0"]
    requires forall i | 0 <= i < |m| :: m[i] == t.keys[0]
    ensures WellFormed(t) && PrefixFree(t.codes) && Encoded(t.codes, m).Ok?
    ensures forall c | c in t.codes :: t.codes[c] != []
  {
    EncodedOk(t.codes, m);
  }

  // ---------------------------------------------------------------- Compress

  /** The modes of the constructor: build a table from the message ('encode' in
      fano_shannon.py, 'linear_code' in fannon-shannon.py), decode with a given
      table, or any other string, which keeps the given table. */
  datatype Mode = Build | Decode | Keep

  /** The fields of a `Compress` object. */
  datatype Compressor = Compressor(message: string, codeTable: CodeTable, frequencies: seq<Entry>)

  /** `Compress(message, code_table, mode)`: builds frequencies and table from the
      message, or takes the given table, which decoding refuses when it is empty. */
  method NewCompressor(message: string, table: CodeTable, mode: Mode) returns (r: Result<Compressor>)
    requires WellFormed(table)
    ensures mode == Build ==> r == Ok(Compressor(message, TableOf(message), Frequencies(message)))
    ensures mode == Decode ==> r == if table.codes == map[] then Err(MissingCodeTable) else Ok(Compressor(message, table, []))
    ensures mode == Keep ==> r == Ok(Compressor(message, table, []))
  {
    match mode
    case Build =>
      var frequencies := CalculateFrequencies(message);
      FrequenciesSpec(message);
      var codeTable := BuildCodeTable(frequencies);
      r := Ok(Compressor(message, codeTable, frequencies));
    case Decode =>
      if table.codes == map[] {
        r := Err(MissingCodeTable);
      } else {
        r := Ok(Compressor(message, table, []));
      }
    case Keep =>
      r := Ok(Compressor(message, table, []));
  }

  /** fannon-shannon.py's `compress`: the compressed message as a string. */
  function CompressText(c: Compressor): Result<string>
  {
    Encoded(c.codeTable.codes, c.message)
  }

  /** fano_shannon.py's `compress`: the compressed message as a list of
      one-character strings, which decode mode joins back into a string. */
  function Compress(c: Compressor): (r: Result<seq<string>>)
    ensures r.Ok? <==> CompressText(c).Ok?
    ensures r.Ok? ==> Join(r.value) == CompressText(c).value && forall i | 0 <= i < |r.value| :: |r.value[i]| == 1
  {
    match CompressText(c)
    case Ok(s) => JoinExplode(s); Ok(Explode(s))
    case Err(e) => Err(e)
  }

  /** `decompress`: feeds the message's bits through the reverse table. */
  method Decompress(c: Compressor) returns (decoded: string)
    requires WellFormed(c.codeTable)
    ensures decoded == Greedy(Reverse(c.codeTable.keys, c.codeTable.codes), c.message, [])
  {
    var rev := Reverse(c.codeTable.keys, c.codeTable.codes);
    decoded := [];
    var current: string := [];
    for k := 0 to |c.message|
      invariant decoded + Greedy(rev, c.message[k..], current) == Greedy(rev, c.message, [])
    {
      var bits := c.message[k..];
      assert bits[0] == c.message[k] && bits[1..] == c.message[k + 1..];
      current := current + [c.message[k]];
      if current in rev {
        decoded := decoded + [rev[current]];
        current := [];
      }
    }
    assert c.message[|c.message|..] == [];
  }
}
