/** Grouping and ranking shared by the services: a JavaScript record used as
    a counter (`counts[k] = (counts[k] ?? 0) + 1`), enumerated with
    `Object.entries` in key insertion order, then ordered with the stable
    `sort((a, b) => b.count - a.count)`. */
module Ranking {

  // ---------------------------------------------------------------------
  // Occurrences and first-occurrence order
  // ---------------------------------------------------------------------

  /** Number of occurrences of `x` in `xs`. */
  function Count(xs: seq<string>, x: string): nat {
    if xs == [] then 0
    else Count(xs[..|xs| - 1], x) + if xs[|xs| - 1] == x then 1 else 0
  }

  lemma {:induction false} CountPositive(xs: seq<string>, x: string)
    ensures Count(xs, x) > 0 <==> x in xs
  {
    if xs != [] {
      var init := xs[..|xs| - 1];
      CountPositive(init, x);
      assert xs == init + [xs[|xs| - 1]];
    }
  }

  lemma CountAppend(xs: seq<string>, y: string, x: string)
    ensures Count(xs + [y], x) == Count(xs, x) + if y == x then 1 else 0
  {
    assert (xs + [y])[..|xs|] == xs;
  }

  predicate NoDups(xs: seq<string>) {
    forall i, j :: 0 <= i < j < |xs| ==> xs[i] != xs[j]
  }

  /** The distinct elements of `xs`, each at its first occurrence: the keys
      of a record filled from `xs`, in insertion order. */
  function Distinct(xs: seq<string>): (d: seq<string>)
    ensures forall x :: x in d <==> x in xs
  {
    if xs == [] then []
    else
      var init := xs[..|xs| - 1];
      var x := xs[|xs| - 1];
      assert xs == init + [x];
      var d := Distinct(init);
      if x in d then d else d + [x]
  }

  /** No key is listed twice. */
  lemma {:induction false} DistinctNoDups(xs: seq<string>)
    ensures NoDups(Distinct(xs))
  {
    if xs != [] {
      var init := xs[..|xs| - 1];
      var x := xs[|xs| - 1];
      DistinctNoDups(init);
      var d := Distinct(init);
      if x !in d {
        var d' := d + [x];
        forall i, j | 0 <= i < j < |d'| ensures d'[i] != d'[j] {
          if j == |d| {
            assert d'[i] == d[i];
          } else {
            assert d'[i] == d[i] && d'[j] == d[j];
          }
        }
      }
    }
  }

  lemma DistinctAppend(xs: seq<string>, x: string)
    ensures Distinct(xs + [x]) == if x in xs then Distinct(xs) else Distinct(xs) + [x]
  {
    assert (xs + [x])[..|xs|] == xs;
  }

  /** Position of the first occurrence of `x` in `xs`, |xs| when absent. */
  function FirstIndex(xs: seq<string>, x: string): (i: nat)
    ensures i <= |xs|
    ensures i < |xs| <==> x in xs
    ensures i < |xs| ==> xs[i] == x && x !in xs[..i]
  {
    if xs == [] then 0
    else if xs[0] == x then 0
    else
      var i := 1 + FirstIndex(xs[1..], x);
      assert xs[..i] == [xs[0]] + xs[1..][..i - 1];
      i
  }

  lemma FirstIndexAppend(xs: seq<string>, y: string, x: string)
    requires x in xs + [y]
    ensures FirstIndex(xs + [y], x) == if x in xs then FirstIndex(xs, x) else |xs|
  {
    if x in xs {
      var j := FirstIndex(xs, x);
      assert (xs + [y])[j] == x;
      assert (xs + [y])[..j] == xs[..j];
    } else {
      assert (xs + [y])[..|xs|] == xs;
    }
  }

  /** The keys of `d` appear in the order of their first occurrence in `xs`. */
  predicate FirstOccurrenceOrdered(d: seq<string>, xs: seq<string>) {
    forall i, j :: 0 <= i < j < |d| ==> FirstIndex(xs, d[i]) < FirstIndex(xs, d[j])
  }

  /** `Distinct` lists keys in the order of their first occurrence. */
  lemma {:induction false} DistinctFirstOccurrenceOrder(xs: seq<string>)
    ensures FirstOccurrenceOrdered(Distinct(xs), xs)
  {
    if xs != [] {
      var init := xs[..|xs| - 1];
      var x := xs[|xs| - 1];
      assert xs == init + [x];
      DistinctFirstOccurrenceOrder(init);
      var d0 := Distinct(init);
      var d := Distinct(xs);
      assert d == if x in d0 then d0 else d0 + [x];
      forall k | 0 <= k < |d0|
        ensures FirstIndex(xs, d0[k]) == FirstIndex(init, d0[k]) < |init|
      {
        assert d0[k] in init;
        FirstIndexAppend(init, x, d0[k]);
      }
      if x !in d0 {
        assert x !in init;
        FirstIndexAppend(init, x, x);
        assert FirstIndex(xs, x) == |init|;
      }
      forall i, j | 0 <= i < j < |d| ensures FirstIndex(xs, d[i]) < FirstIndex(xs, d[j]) {
        assert d[i] == d0[i];
        assert FirstIndex(xs, d0[i]) < |init|;
        if j < |d0| {
          assert d[j] == d0[j];
          assert FirstIndex(init, d0[i]) < FirstIndex(init, d0[j]);
        } else {
          assert d[j] == x && FirstIndex(xs, x) == |init|;
        }
      }
    }
  }

  // ---------------------------------------------------------------------
  // A counting record and Object.entries
  // ---------------------------------------------------------------------

  /** One `[key, count]` pair of `Object.entries`. */
  datatype KeyCount = KeyCount(key: string, count: nat)

  /** The entries of a record that maps each of `keys` to its number of
      occurrences in `xs`. */
  function TallyOf(keys: seq<string>, xs: seq<string>): (r: seq<KeyCount>)
    ensures |r| == |keys|
    ensures forall i :: 0 <= i < |r| ==> r[i] == KeyCount(keys[i], Count(xs, keys[i]))
  {
    seq(|keys|, i requires 0 <= i < |keys| => KeyCount(keys[i], Count(xs, keys[i])))
  }

  /** The entries of the record that counts `xs`, in insertion order. */
  function Tally(xs: seq<string>): seq<KeyCount> {
    TallyOf(Distinct(xs), xs)
  }

  /** `Object.entries(counts)` for a record whose keys were inserted in the
      order `keys`. */
  function Entries(keys: seq<string>, counts: map<string, nat>): (r: seq<KeyCount>)
    requires forall k :: k in keys ==> k in counts
    ensures |r| == |keys|
  {
    seq(|keys|, i requires 0 <= i < |keys| => KeyCount(keys[i], counts[keys[i]]))
  }

  /** A record that holds the true count of each of its keys enumerates as
      `TallyOf` those keys. */
  lemma EntriesOfCounts(keys: seq<string>, counts: map<string, nat>, xs: seq<string>)
    requires forall k :: k in keys ==> k in counts && counts[k] == Count(xs, k)
    ensures Entries(keys, counts) == TallyOf(keys, xs)
  {
  }

  /** `counts`, with keys inserted in the order `order`, is the record that
      counts the occurrences of each element of `xs`. */
  ghost predicate CountsOf(order: seq<string>, counts: map<string, nat>, xs: seq<string>) {
    order == Distinct(xs) &&
    (forall k :: k in counts <==> k in order) &&
    (forall k :: k in counts ==> counts[k] == Count(xs, k))
  }

  /** `counts[x] = (counts[x] ?? 0) + 1`: the record counts one more
      occurrence of `x`; a new key goes to the end of the insertion order. */
  method Increment(order: seq<string>, counts: map<string, nat>, ghost xs: seq<string>, x: string)
    returns (order': seq<string>, counts': map<string, nat>)
    requires CountsOf(order, counts, xs)
    ensures CountsOf(order', counts', xs + [x])
  {
    DistinctAppend(xs, x);
    CountPositive(xs, x);
    forall k ensures Count(xs + [x], k) == Count(xs, k) + if x == k then 1 else 0 {
      CountAppend(xs, x, k);
    }
    order' := if x in counts then order else order + [x];
    counts' := counts[x := (if x in counts then counts[x] else 0) + 1];
  }

  /** `Object.entries` of the record is the tally of `xs`. */
  lemma CountsEntries(order: seq<string>, counts: map<string, nat>, xs: seq<string>)
    requires CountsOf(order, counts, xs)
    ensures forall k :: k in order ==> k in counts
    ensures Entries(order, counts) == Tally(xs)
  {
    EntriesOfCounts(order, counts, xs);
  }

  /** `groups.get(k) ?? []` with `x` pushed on it, stored under `k`: how a
      record of lists gains one element. */
  function Push<T>(groups: map<string, seq<T>>, k: string, x: T): map<string, seq<T>> {
    groups[k := (if k in groups then groups[k] else []) + [x]]
  }

  /** Creating the empty list of a new key and pushing onto it is `Push`. */
  lemma PushNew<T>(groups: map<string, seq<T>>, k: string, x: T)
    requires k !in groups
    ensures var created := groups[k := []];
      created[k := created[k] + [x]] == Push(groups, k, x)
  {
    var created := groups[k := []];
    assert created[k] + [x] == [x];
  }

  /** Every entry of the tally is a key of `xs` with its true count, and
      every key of `xs` has its entry. */
  lemma TallyEntries(xs: seq<string>)
    ensures forall e :: e in Tally(xs) ==> e.key in xs && e.count == Count(xs, e.key)
    ensures forall k :: k in xs ==> KeyCount(k, Count(xs, k)) in Tally(xs)
    ensures DistinctKeys(Tally(xs))
  {
    var d := Distinct(xs);
    var t := Tally(xs);
    DistinctNoDups(xs);
    forall k | k in xs ensures KeyCount(k, Count(xs, k)) in t {
      var i :| 0 <= i < |d| && d[i] == k;
      assert t[i] == KeyCount(k, Count(xs, k));
    }
    forall e | e in t ensures e.key in xs && e.count == Count(xs, e.key) {
      var i :| 0 <= i < |t| && t[i] == e;
      assert d[i] in d;
    }
  }

  function SumCounts(s: seq<KeyCount>): nat {
    if s == [] then 0 else s[0].count + SumCounts(s[1..])
  }

  lemma SumCountsAppend(a: seq<KeyCount>, b: seq<KeyCount>)
    ensures SumCounts(a + b) == SumCounts(a) + SumCounts(b)
  {
    if a != [] {
      assert (a + b)[1..] == a[1..] + b;
      SumCountsAppend(a[1..], b);
    } else {
      assert a + b == b;
    }
  }

  /** Adding one element to `xs` adds one to the tally of a list of distinct
      keys that holds it, and nothing otherwise. */
  lemma {:induction false} SumTallyOfAppend(keys: seq<string>, xs: seq<string>, x: string)
    requires NoDups(keys)
    ensures SumCounts(TallyOf(keys, xs + [x])) == SumCounts(TallyOf(keys, xs)) + if x in keys then 1 else 0
  {
    if keys != [] {
      assert TallyOf(keys, xs + [x])[1..] == TallyOf(keys[1..], xs + [x]);
      assert TallyOf(keys, xs)[1..] == TallyOf(keys[1..], xs);
      SumTallyOfAppend(keys[1..], xs, x);
      CountAppend(xs, x, keys[0]);
      assert x in keys <==> x == keys[0] || x in keys[1..];
    }
  }

  lemma SumTallyOfNewKey(keys: seq<string>, xs: seq<string>, x: string)
    ensures SumCounts(TallyOf(keys + [x], xs)) == SumCounts(TallyOf(keys, xs)) + Count(xs, x)
  {
    assert TallyOf(keys + [x], xs) == TallyOf(keys, xs) + [KeyCount(x, Count(xs, x))];
    SumCountsAppend(TallyOf(keys, xs), [KeyCount(x, Count(xs, x))]);
  }

  /** The counts of a record filled from `xs` add up to |xs|. */
  lemma {:induction false} SumTally(xs: seq<string>)
    ensures SumCounts(Tally(xs)) == |xs|
  {
    if xs != [] {
      var init := xs[..|xs| - 1];
      var x := xs[|xs| - 1];
      assert xs == init + [x];
      SumTally(init);
      DistinctNoDups(init);
      var d := Distinct(init);
      SumTallyOfAppend(d, init, x);
      if x !in d {
        SumTallyOfNewKey(d, xs, x);
        CountAppend(init, x, x);
        CountPositive(init, x);
      }
    }
  }

  // ---------------------------------------------------------------------
  // sort((a, b) => b.count - a.count), a stable sort
  // ---------------------------------------------------------------------

  predicate SortedByCount(s: seq<KeyCount>) {
    forall i, j :: 0 <= i < j < |s| ==> s[i].count >= s[j].count
  }

  predicate DistinctKeys(s: seq<KeyCount>) {
    forall i, j :: 0 <= i < j < |s| ==> s[i].key != s[j].key
  }

  /** Puts `x` after every element whose count is at least its own. */
  function InsertByCount(x: KeyCount, s: seq<KeyCount>): (r: seq<KeyCount>)
    ensures |r| == |s| + 1
    ensures multiset(r) == multiset(s) + multiset{x}
  {
    if s == [] || s[0].count < x.count then [x] + s
    else
      var r := [s[0]] + InsertByCount(x, s[1..]);
      assert s == [s[0]] + s[1..];
      r
  }

  lemma MemberOfInsert(x: KeyCount, s: seq<KeyCount>, e: KeyCount)
    requires e in InsertByCount(x, s)
    ensures e == x || e in s
  {
    assert e in multiset(InsertByCount(x, s));
  }

  /** Putting in front an entry whose count is at least every other one
      keeps the order by count. */
  lemma SortedCons(h: KeyCount, rest: seq<KeyCount>)
    requires SortedByCount(rest)
    requires forall k :: 0 <= k < |rest| ==> h.count >= rest[k].count
    ensures SortedByCount([h] + rest)
  {
    var r := [h] + rest;
    forall i, j | 0 <= i < j < |r| ensures r[i].count >= r[j].count {
      assert r[j] == rest[j - 1];
      if i > 0 {
        assert r[i] == rest[i - 1];
      }
    }
  }

  lemma {:induction false} InsertKeepsSorted(x: KeyCount, s: seq<KeyCount>)
    requires SortedByCount(s)
    ensures SortedByCount(InsertByCount(x, s))
  {
    if s != [] && s[0].count >= x.count {
      var rest := InsertByCount(x, s[1..]);
      assert SortedByCount(s[1..]) by {
        forall i, j | 0 <= i < j < |s[1..]| ensures s[1..][i].count >= s[1..][j].count {
          assert s[1..][i] == s[i + 1] && s[1..][j] == s[j + 1];
        }
      }
      InsertKeepsSorted(x, s[1..]);
      forall k | 0 <= k < |rest| ensures s[0].count >= rest[k].count {
        MemberOfInsert(x, s[1..], rest[k]);
        if rest[k] != x {
          var q :| 0 <= q < |s[1..]| && s[1..][q] == rest[k];
          assert s[q + 1] == rest[k];
        }
      }
      SortedCons(s[0], rest);
    } else {
      forall k | 0 <= k < |s| ensures x.count >= s[k].count {
        if k > 0 {
          assert s[0].count >= s[k].count;
        }
      }
      SortedCons(x, s);
    }
  }

  /** Putting in front an entry whose key no other entry has keeps the keys
      distinct. */
  lemma DistinctCons(h: KeyCount, rest: seq<KeyCount>)
    requires DistinctKeys(rest)
    requires forall k :: 0 <= k < |rest| ==> h.key != rest[k].key
    ensures DistinctKeys([h] + rest)
  {
    var r := [h] + rest;
    forall i, j | 0 <= i < j < |r| ensures r[i].key != r[j].key {
      assert r[j] == rest[j - 1];
      if i > 0 {
        assert r[i] == rest[i - 1];
      }
    }
  }

  lemma {:induction false} InsertKeepsKeysDistinct(x: KeyCount, s: seq<KeyCount>)
    requires DistinctKeys(s)
    requires forall k :: 0 <= k < |s| ==> s[k].key != x.key
    ensures DistinctKeys(InsertByCount(x, s))
  {
    if s != [] && s[0].count >= x.count {
      var rest := InsertByCount(x, s[1..]);
      assert DistinctKeys(s[1..]) by {
        forall i, j | 0 <= i < j < |s[1..]| ensures s[1..][i].key != s[1..][j].key {
          assert s[1..][i] == s[i + 1] && s[1..][j] == s[j + 1];
        }
      }
      assert forall k :: 0 <= k < |s[1..]| ==> s[1..][k].key != x.key by {
        forall k | 0 <= k < |s[1..]| ensures s[1..][k].key != x.key {
          assert s[1..][k] == s[k + 1];
        }
      }
      InsertKeepsKeysDistinct(x, s[1..]);
      forall k | 0 <= k < |rest| ensures s[0].key != rest[k].key {
        MemberOfInsert(x, s[1..], rest[k]);
        if rest[k] != x {
          var q :| 0 <= q < |s[1..]| && s[1..][q] == rest[k];
          assert s[q + 1] == rest[k];
        }
      }
      DistinctCons(s[0], rest);
    } else {
      DistinctCons(x, s);
    }
  }

  /** Entries with equal counts appear in the order of their keys' first
      occurrence in `order`. */
  predicate TiesInOrderOf(s: seq<KeyCount>, order: seq<string>) {
    forall i, j :: 0 <= i < j < |s| && s[i].count == s[j].count ==>
      FirstIndex(order, s[i].key) < FirstIndex(order, s[j].key)
  }

  /** Putting in front an entry that comes before every other entry of the
      same count keeps ties in order. */
  lemma TiesCons(h: KeyCount, rest: seq<KeyCount>, order: seq<string>)
    requires TiesInOrderOf(rest, order)
    requires forall k :: 0 <= k < |rest| && h.count == rest[k].count ==>
      FirstIndex(order, h.key) < FirstIndex(order, rest[k].key)
    ensures TiesInOrderOf([h] + rest, order)
  {
    var r := [h] + rest;
    forall i, j | 0 <= i < j < |r| && r[i].count == r[j].count
      ensures FirstIndex(order, r[i].key) < FirstIndex(order, r[j].key)
    {
      assert r[j] == rest[j - 1];
      if i > 0 {
        assert r[i] == rest[i - 1];
      }
    }
  }

  /** The tail of a list ordered by count with ties in order is ordered the
      same way. */
  lemma TailRankedTies(s: seq<KeyCount>, order: seq<string>)
    requires s != []
    requires SortedByCount(s) && TiesInOrderOf(s, order)
    ensures SortedByCount(s[1..]) && TiesInOrderOf(s[1..], order)
  {
    var tail := s[1..];
    forall i, j | 0 <= i < j < |tail| ensures tail[i] == s[i + 1] && tail[j] == s[j + 1] {
    }
  }

  lemma {:induction false} InsertKeepsTiesInOrder(x: KeyCount, s: seq<KeyCount>, order: seq<string>)
    requires SortedByCount(s) && TiesInOrderOf(s, order)
    requires forall k :: 0 <= k < |s| ==> FirstIndex(order, s[k].key) < FirstIndex(order, x.key)
    ensures TiesInOrderOf(InsertByCount(x, s), order)
  {
    if s != [] && s[0].count >= x.count {
      var tail := s[1..];
      var rest := InsertByCount(x, tail);
      TailRankedTies(s, order);
      assert forall k :: 0 <= k < |tail| ==> FirstIndex(order, tail[k].key) < FirstIndex(order, x.key) by {
        forall k | 0 <= k < |tail| ensures tail[k] == s[k + 1] {
        }
      }
      InsertKeepsTiesInOrder(x, tail, order);
      forall k | 0 <= k < |rest| && s[0].count == rest[k].count
        ensures FirstIndex(order, s[0].key) < FirstIndex(order, rest[k].key)
      {
        MemberOfInsert(x, tail, rest[k]);
        if rest[k] != x {
          var q :| 0 <= q < |tail| && tail[q] == rest[k];
          assert s[q + 1] == rest[k];
        }
      }
      TiesCons(s[0], rest, order);
    } else {
      forall k | 0 <= k < |s| ensures x.count > s[k].count {
        if k > 0 {
          assert s[0].count >= s[k].count;
        }
      }
      TiesCons(x, s, order);
    }
  }

  /** Array.prototype.sort with comparator `b.count - a.count`: by count,
      highest first, equal counts keeping their order. Modelled as an
      insertion sort, which produces the same order as any stable sort. */
  function SortByCount(s: seq<KeyCount>): (r: seq<KeyCount>)
    ensures |r| == |s|
    ensures multiset(r) == multiset(s)
  {
    if s == [] then []
    else
      var init := s[..|s| - 1];
      assert s == init + [s[|s| - 1]];
      InsertByCount(s[|s| - 1], SortByCount(init))
  }

  lemma MemberOfSorted(s: seq<KeyCount>, e: KeyCount)
    requires e in SortByCount(s)
    ensures e in s
  {
    assert e in multiset(SortByCount(s));
  }

  /** The sorted entries are ordered by count, highest first. */
  lemma {:induction false} SortByCountSorted(s: seq<KeyCount>)
    ensures SortedByCount(SortByCount(s))
  {
    if s != [] {
      var init := s[..|s| - 1];
      SortByCountSorted(init);
      InsertKeepsSorted(s[|s| - 1], SortByCount(init));
    }
  }

  /** Sorting keeps keys distinct. */
  lemma {:induction false} SortByCountDistinctKeys(s: seq<KeyCount>)
    requires DistinctKeys(s)
    ensures DistinctKeys(SortByCount(s))
  {
    if s != [] {
      var init := s[..|s| - 1];
      var x := s[|s| - 1];
      var rs := SortByCount(init);
      SortByCountDistinctKeys(init);
      forall k | 0 <= k < |rs| ensures rs[k].key != x.key {
        MemberOfSorted(init, rs[k]);
      }
      InsertKeepsKeysDistinct(x, rs);
    }
  }

  /** Entries ordered by the first occurrence of their keys in `order`. */
  predicate InOrderOf(s: seq<KeyCount>, order: seq<string>) {
    forall i, j :: 0 <= i < j < |s| ==> FirstIndex(order, s[i].key) < FirstIndex(order, s[j].key)
  }

  /** The sort is stable: among equal counts the sorted entries keep the
      order of their keys' first occurrence in `order`, when the input had
      that order. */
  lemma {:induction false} SortByCountStable(s: seq<KeyCount>, order: seq<string>)
    requires InOrderOf(s, order)
    ensures TiesInOrderOf(SortByCount(s), order)
  {
    if s != [] {
      var init := s[..|s| - 1];
      var x := s[|s| - 1];
      var rs := SortByCount(init);
      SortByCountStable(init, order);
      SortByCountSorted(init);
      forall k | 0 <= k < |rs| ensures FirstIndex(order, rs[k].key) < FirstIndex(order, x.key) {
        MemberOfSorted(init, rs[k]);
        var q :| 0 <= q < |init| && init[q] == rs[k];
        assert s[q] == rs[k];
      }
      InsertKeepsTiesInOrder(x, rs, order);
    }
  }

  lemma TallyInFirstOccurrenceOrder(xs: seq<string>)
    ensures InOrderOf(Tally(xs), xs)
  {
    var d := Distinct(xs);
    var t := Tally(xs);
    DistinctFirstOccurrenceOrder(xs);
    forall i, j | 0 <= i < j < |t| ensures FirstIndex(xs, t[i].key) < FirstIndex(xs, t[j].key) {
      assert t[i].key == d[i] && t[j].key == d[j];
    }
  }

  /** The tally ranked by count: each key of `xs` once with its true
      count, highest count first, ties in first-occurrence order. */
  lemma RankedTally(xs: seq<string>)
    ensures |SortByCount(Tally(xs))| == |Distinct(xs)|
    ensures SortedByCount(SortByCount(Tally(xs)))
    ensures DistinctKeys(SortByCount(Tally(xs)))
    ensures TiesInOrderOf(SortByCount(Tally(xs)), xs)
    ensures forall e :: e in SortByCount(Tally(xs)) ==> e.key in xs && e.count == Count(xs, e.key)
    ensures forall x :: x in xs ==> KeyCount(x, Count(xs, x)) in SortByCount(Tally(xs))
  {
    var t := Tally(xs);
    TallyEntries(xs);
    TallyInFirstOccurrenceOrder(xs);
    SortByCountSorted(t);
    SortByCountDistinctKeys(t);
    SortByCountStable(t, xs);
    forall e | e in SortByCount(t) ensures e in t {
      MemberOfSorted(t, e);
    }
    forall x | x in xs ensures KeyCount(x, Count(xs, x)) in SortByCount(t) {
      assert KeyCount(x, Count(xs, x)) in multiset(t);
    }
  }

  /** In a list ordered by count with ties in first-occurrence order, the
      first entry beats every other entry. */
  lemma TopBeats(r: seq<KeyCount>, xs: seq<string>, e: KeyCount)
    requires SortedByCount(r) && TiesInOrderOf(r, xs)
    requires e in r
    ensures e.count <= r[0].count
    ensures e.count == r[0].count ==> FirstIndex(xs, r[0].key) <= FirstIndex(xs, e.key)
  {
    var q :| 0 <= q < |r| && r[q] == e;
  }

  /** The first ranked entry is a most frequent key of a non-empty `xs`,
      the first to occur among the most frequent ones. */
  lemma TopOfRanked(xs: seq<string>)
    requires xs != []
    ensures |SortByCount(Tally(xs))| > 0
    ensures var top := SortByCount(Tally(xs))[0];
      top.key in xs && top.count == Count(xs, top.key) &&
      forall x :: x in xs ==>
        (Count(xs, x) <= top.count &&
         (Count(xs, x) == top.count ==> FirstIndex(xs, top.key) <= FirstIndex(xs, x)))
  {
    var r := SortByCount(Tally(xs));
    RankedTally(xs);
    assert KeyCount(xs[0], Count(xs, xs[0])) in r;
    forall x | x in xs
      ensures Count(xs, x) <= r[0].count && (Count(xs, x) == r[0].count ==> FirstIndex(xs, r[0].key) <= FirstIndex(xs, x))
    {
      TopBeats(r, xs, KeyCount(x, Count(xs, x)));
    }
  }

  /** A prefix of a ranked list is ranked the same way. */
  lemma PrefixRanked(r: seq<KeyCount>, n: nat, xs: seq<string>)
    requires n <= |r|
    requires SortedByCount(r) && DistinctKeys(r) && TiesInOrderOf(r, xs)
    ensures SortedByCount(r[..n]) && DistinctKeys(r[..n]) && TiesInOrderOf(r[..n], xs)
    ensures forall e :: e in r[..n] ==> e in r
  {
    var p := r[..n];
    assert forall i :: 0 <= i < |p| ==> p[i] == r[i];
  }

  /** `slice(0, n)` */
  function Take(s: seq<KeyCount>, n: nat): (r: seq<KeyCount>)
    ensures |r| == if |s| < n then |s| else n
    ensures r == s[..|r|]
  {
    if |s| < n then s else s[..n]
  }
}
