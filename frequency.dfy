/**
  `collections.Counter` over a sequence of keys and its `most_common(n)`.

  A Counter is a dictionary from keys to counts whose keys keep the order in which they were
  first seen: counting one more occurrence of a known key updates its count in place, a new key
  goes at the end. `most_common(n)` sorts the entries by count, largest first, with a stable
  sort (so equal counts keep the dictionary's order, which is first-seen order), and keeps the
  first n.
*/
module Frequency {
  import opened Outcomes

  /** One (key, count) pair of a Counter. */
  datatype Entry<K> = Entry(key: K, count: nat)

  /** How often k occurs in xs. */
  function Count<K(==)>(xs: seq<K>, k: K): nat {
    multiset(xs)[k]
  }

  /** The index at which k first occurs in xs, or |xs| when it does not occur. */
  function FirstSeen<K(==)>(xs: seq<K>, k: K): (i: nat)
    ensures i <= |xs| && (i < |xs| <==> k in xs)
    ensures i < |xs| ==> xs[i] == k
    ensures forall j :: 0 <= j < i && j < |xs| ==> xs[j] != k
  {
    if xs == [] then 0 else if xs[0] == k then 0 else 1 + FirstSeen(xs[1..], k)
  }

  /** The keys of a table. */
  function KeySet<K>(t: seq<Entry<K>>): set<K> {
    set i | 0 <= i < |t| :: t[i].key
  }

  /** No key occurs twice in t. */
  predicate DistinctKeys<K(==)>(t: seq<Entry<K>>) {
    forall i, j :: 0 <= i < j < |t| ==> t[i].key != t[j].key
  }

  /** The keys of t come in the order of their first occurrence in xs. */
  predicate InFirstSeenOrder<K(==)>(xs: seq<K>, t: seq<Entry<K>>) {
    forall i, j :: 0 <= i < j < |t| ==> FirstSeen(xs, t[i].key) < FirstSeen(xs, t[j].key)
  }

  /** Every entry of t holds its key's number of occurrences in xs. */
  predicate ExactCounts<K(==)>(xs: seq<K>, t: seq<Entry<K>>) {
    forall i :: 0 <= i < |t| ==> t[i].count == Count(xs, t[i].key)
  }

  /** The sum of the counts of t. */
  function Sum<K>(t: seq<Entry<K>>): nat {
    if t == [] then 0 else t[0].count + Sum(t[1..])
  }

  /** `counter[k]`: the count of k, or 0 for a key the table does not hold. */
  function Lookup<K(==)>(t: seq<Entry<K>>, k: K): nat {
    if t == [] then 0 else if t[0].key == k then t[0].count else Lookup(t[1..], k)
  }

  /** One more occurrence of x: its entry counts one more, or a new entry (x, 1) goes at the end. */
  function Bump<K(==)>(t: seq<Entry<K>>, x: K): seq<Entry<K>> {
    if t == [] then [Entry(x, 1)]
    else if t[0].key == x then [Entry(x, t[0].count + 1)] + t[1..]
    else [t[0]] + Bump(t[1..], x)
  }

  /** `Counter(xs)`: the occurrences of xs counted one after the other. */
  function Tally<K(==)>(xs: seq<K>): seq<Entry<K>> {
    if xs == [] then [] else Bump(Tally(xs[..|xs| - 1]), xs[|xs| - 1])
  }

  /** Puts e in front of the first entry whose count is not larger than e's. */
  function Insert<K>(e: Entry<K>, r: seq<Entry<K>>): seq<Entry<K>> {
    if r == [] || r[0].count <= e.count then [e] + r else [r[0]] + Insert(e, r[1..])
  }

  /**
    `sorted(t, key=count, reverse=True)`: by count, largest first; an entry is inserted in
    front of the equal counts that come after it in t, so equal counts keep their order.
  */
  function SortByCount<K>(t: seq<Entry<K>>): seq<Entry<K>> {
    if t == [] then [] else Insert(t[0], SortByCount(t[1..]))
  }

  /** `Counter.most_common(n)` of the table t. */
  function MostCommon<K>(t: seq<Entry<K>>, n: nat): seq<Entry<K>> {
    var s := SortByCount(t);
    s[..Min(n, |s|)]
  }

  /** `Counter(xs).most_common(n)`. */
  function TopN<K(==)>(xs: seq<K>, n: nat): seq<Entry<K>> {
    MostCommon(Tally(xs), n)
  }

  /**
    The order of most_common on the keys of xs: e comes before f when its count is larger, or
    when the counts are equal and e's key was seen first.
  */
  predicate Ahead<K(==)>(xs: seq<K>, e: Entry<K>, f: Entry<K>) {
    e.count > f.count || (e.count == f.count && FirstSeen(xs, e.key) < FirstSeen(xs, f.key))
  }

  /** Every entry of r comes before every later one. */
  predicate Ranked<K(==)>(xs: seq<K>, r: seq<Entry<K>>) {
    forall i, j :: 0 <= i < j < |r| ==> Ahead(xs, r[i], r[j])
  }

  // ---------------------------------------------------------------------------------------
  // Counting

  /** The keys of a non-empty table: its first key and those of the rest. */
  lemma KeySetTail<K>(t: seq<Entry<K>>)
    requires t != []
    ensures KeySet(t) == {t[0].key} + KeySet(t[1..])
  {
    forall k | k in KeySet(t) ensures k in {t[0].key} + KeySet(t[1..]) {
      var i :| 0 <= i < |t| && t[i].key == k;
      if i > 0 {
        assert t[1..][i - 1].key == k;
      }
    }
    forall k | k in KeySet(t[1..]) ensures k in KeySet(t) {
      var i :| 0 <= i < |t[1..]| && t[1..][i].key == k;
      assert t[i + 1].key == k;
    }
  }

  /** The keys of a table with one more entry at the end. */
  lemma KeySetSnoc<K>(t: seq<Entry<K>>, e: Entry<K>)
    ensures KeySet(t + [e]) == KeySet(t) + {e.key}
  {
    var b := t + [e];
    forall k | k in KeySet(b) ensures k in KeySet(t) + {e.key} {
      var i :| 0 <= i < |b| && b[i].key == k;
      if i < |t| {
        assert t[i].key == k;
      }
    }
    assert b[|t|].key == e.key;
    forall k | k in KeySet(t) ensures k in KeySet(b) {
      var i :| 0 <= i < |t| && t[i].key == k;
      assert b[i].key == k;
    }
  }

  /** Two tables with the same keys in the same places have the same key set. */
  lemma KeySetSame<K>(t: seq<Entry<K>>, b: seq<Entry<K>>)
    requires |b| == |t| && forall i :: 0 <= i < |t| ==> b[i].key == t[i].key
    ensures KeySet(b) == KeySet(t)
  {
    forall k | k in KeySet(b) ensures k in KeySet(t) {
      var i :| 0 <= i < |b| && b[i].key == k;
      assert t[i].key == k;
    }
    forall k | k in KeySet(t) ensures k in KeySet(b) {
      var i :| 0 <= i < |t| && t[i].key == k;
      assert b[i].key == k;
    }
  }

  /** The elements of a sequence with one more element at the end. */
  lemma ElementsSnoc<K>(xs: seq<K>, x: K)
    ensures (set k | k in xs + [x]) == (set k | k in xs) + {x}
  {
    assert forall k :: k in xs + [x] <==> k in xs || k == x;
  }

  /** Counting one more element at the end. */
  lemma CountSnoc<K>(xs: seq<K>, x: K, k: K)
    ensures Count(xs + [x], k) == Count(xs, k) + if k == x then 1 else 0
  {
    assert multiset(xs + [x]) == multiset(xs) + multiset{x};
  }

  /** A table with distinct keys: its first key is not among the others, which are distinct too. */
  lemma DistinctTail<K>(t: seq<Entry<K>>)
    requires t != [] && DistinctKeys(t)
    ensures DistinctKeys(t[1..]) && t[0].key !in KeySet(t[1..])
  {
    forall i | 0 <= i < |t[1..]| ensures t[1..][i].key != t[0].key {
      assert t[1..][i] == t[i + 1];
    }
  }

  /** Bumping a known key adds one to its count; every key stays in its place. */
  lemma {:induction false} BumpKnown<K>(t: seq<Entry<K>>, x: K)
    requires DistinctKeys(t) && x in KeySet(t)
    ensures |Bump(t, x)| == |t|
    ensures forall i :: 0 <= i < |t| ==> Bump(t, x)[i].key == t[i].key
    ensures forall i :: 0 <= i < |t| ==> Bump(t, x)[i].count == t[i].count + if t[i].key == x then 1 else 0
  {
    KeySetTail(t);
    DistinctTail(t);
    if t[0].key != x {
      BumpKnown(t[1..], x);
    } else {
      forall i | 0 < i < |t| ensures t[i].key != x {
        assert t[i] == t[1..][i - 1];
      }
    }
  }

  /** Bumping a new key appends (x, 1). */
  lemma {:induction false} BumpNew<K>(t: seq<Entry<K>>, x: K)
    requires x !in KeySet(t)
    ensures Bump(t, x) == t + [Entry(x, 1)]
  {
    if t != [] {
      KeySetTail(t);
      BumpNew(t[1..], x);
    }
  }

  /** Counting is done one element at a time, on the prefix. */
  lemma TallyLast<K>(xs: seq<K>)
    requires xs != []
    ensures Tally(xs) == Bump(Tally(xs[..|xs| - 1]), xs[|xs| - 1])
  {
  }

  /**
    The keys of `Counter(xs)` are exactly the elements of xs, each once, in the order in which
    they first occur, and each entry holds the exact number of occurrences.
  */
  lemma {:induction false} TallySpec<K>(xs: seq<K>)
    ensures KeySet(Tally(xs)) == set k | k in xs
    ensures DistinctKeys(Tally(xs))
    ensures InFirstSeenOrder(xs, Tally(xs))
    ensures ExactCounts(xs, Tally(xs))
    decreases |xs|
  {
    if xs != [] {
      var pre, x := xs[..|xs| - 1], xs[|xs| - 1];
      assert xs == pre + [x];
      TallyLast(xs);
      TallySpec(pre);
      var t := Tally(pre);
      ElementsSnoc(pre, x);
      if x in KeySet(t) {
        BumpKnown(t, x);
        BumpKnownSpec(pre, x, t, Bump(t, x));
      } else {
        BumpNew(t, x);
        BumpNewSpec(pre, x, t);
      }
    }
  }

  /** The step of TallySpec for an element already counted. */
  lemma BumpKnownSpec<K>(pre: seq<K>, x: K, t: seq<Entry<K>>, b: seq<Entry<K>>)
    requires KeySet(t) == set k | k in pre
    requires DistinctKeys(t) && InFirstSeenOrder(pre, t) && ExactCounts(pre, t)
    requires x in pre
    requires |b| == |t| && forall i :: 0 <= i < |t| ==> b[i].key == t[i].key
    requires forall i :: 0 <= i < |t| ==> b[i].count == t[i].count + if t[i].key == x then 1 else 0
    ensures KeySet(b) == set k | k in pre
    ensures DistinctKeys(b)
    ensures InFirstSeenOrder(pre + [x], b)
    ensures ExactCounts(pre + [x], b)
  {
    KeySetSame(t, b);
    forall i | 0 <= i < |b| ensures b[i].key in pre {
      assert t[i].key in KeySet(t);
    }
    forall i | 0 <= i < |b| ensures b[i].count == Count(pre + [x], b[i].key) {
      CountSnoc(pre, x, b[i].key);
    }
    forall i | 0 <= i < |b| ensures FirstSeen(pre + [x], b[i].key) == FirstSeen(pre, t[i].key) {
      FirstSeenPrefix(pre, x, b[i].key);
    }
  }

  /** The step of TallySpec for an element not seen before. */
  lemma BumpNewSpec<K>(pre: seq<K>, x: K, t: seq<Entry<K>>)
    requires KeySet(t) == set k | k in pre
    requires DistinctKeys(t) && InFirstSeenOrder(pre, t) && ExactCounts(pre, t)
    requires x !in pre
    ensures KeySet(t + [Entry(x, 1)]) == (set k | k in pre) + {x}
    ensures DistinctKeys(t + [Entry(x, 1)])
    ensures InFirstSeenOrder(pre + [x], t + [Entry(x, 1)])
    ensures ExactCounts(pre + [x], t + [Entry(x, 1)])
  {
    var b := t + [Entry(x, 1)];
    KeySetSnoc(t, Entry(x, 1));
    forall i | 0 <= i < |t| ensures t[i].key in pre {
      assert t[i].key in KeySet(t);
    }
    forall i | 0 <= i < |b| ensures b[i].count == Count(pre + [x], b[i].key) {
      CountSnoc(pre, x, b[i].key);
    }
    forall i | 0 <= i < |t| ensures FirstSeen(pre + [x], t[i].key) == FirstSeen(pre, t[i].key) {
      FirstSeenPrefix(pre, x, t[i].key);
    }
    FirstSeenNew(pre, x);
  }

  /** Appending does not move the first occurrence of a key already present. */
  lemma FirstSeenPrefix<K>(pre: seq<K>, x: K, k: K)
    requires k in pre
    ensures FirstSeen(pre + [x], k) == FirstSeen(pre, k)
  {
    var i, j := FirstSeen(pre + [x], k), FirstSeen(pre, k);
    assert (pre + [x])[j] == k;
    if i < j {
      assert pre[i] == (pre + [x])[i];
    }
  }

  /** A key first seen at the end of the sequence. */
  lemma FirstSeenNew<K>(pre: seq<K>, x: K)
    requires x !in pre
    ensures FirstSeen(pre + [x], x) == |pre|
  {
    assert (pre + [x])[|pre|] == x;
    assert forall j :: 0 <= j < |pre| ==> (pre + [x])[j] == pre[j];
  }

  /** The table of a sequence has one entry per distinct element. */
  lemma TallySize<K>(xs: seq<K>)
    ensures |Tally(xs)| == |set k | k in xs|
  {
    TallySpec(xs);
    DistinctKeysSize(Tally(xs));
  }

  /** A table with distinct keys has as many entries as keys. */
  lemma {:induction false} DistinctKeysSize<K>(t: seq<Entry<K>>)
    requires DistinctKeys(t)
    ensures |KeySet(t)| == |t|
  {
    if t != [] {
      DistinctKeysSize(t[1..]);
      KeySetTail(t);
      DistinctTail(t);
    }
  }

  /** In a table with distinct keys, `counter[k]` is the count of k's entry, and 0 for other keys. */
  lemma {:induction false} LookupEntry<K>(t: seq<Entry<K>>, k: K)
    requires DistinctKeys(t)
    ensures forall i :: 0 <= i < |t| && t[i].key == k ==> Lookup(t, k) == t[i].count
    ensures k !in KeySet(t) ==> Lookup(t, k) == 0
  {
    if t != [] {
      DistinctTail(t);
      KeySetTail(t);
      LookupEntry(t[1..], k);
      assert forall i :: 0 < i < |t| ==> t[i] == t[1..][i - 1];
    }
  }

  /** `Counter(xs)[k]` is the number of occurrences of k in xs, 0 for a key that does not occur. */
  lemma LookupTally<K>(xs: seq<K>, k: K)
    ensures Lookup(Tally(xs), k) == Count(xs, k)
  {
    TallySpec(xs);
    LookupEntry(Tally(xs), k);
    if k in xs {
      var i :| 0 <= i < |Tally(xs)| && Tally(xs)[i].key == k;
    }
  }

  /** The counts of a table add up to the length of the sequence counted. */
  lemma {:induction false} TallySum<K>(xs: seq<K>)
    ensures Sum(Tally(xs)) == |xs|
    decreases |xs|
  {
    if xs != [] {
      TallyLast(xs);
      TallySum(xs[..|xs| - 1]);
      BumpSum(Tally(xs[..|xs| - 1]), xs[|xs| - 1]);
    }
  }

  lemma {:induction false} BumpSum<K>(t: seq<Entry<K>>, x: K)
    ensures Sum(Bump(t, x)) == Sum(t) + 1
  {
    if t != [] && t[0].key != x {
      BumpSum(t[1..], x);
      assert Bump(t, x)[1..] == Bump(t[1..], x);
    }
  }

  // ---------------------------------------------------------------------------------------
  // Ranking

  /** Inserting keeps the entries: the result is a permutation of e and r. */
  lemma {:induction false} InsertPermutes<K>(e: Entry<K>, r: seq<Entry<K>>)
    ensures multiset(Insert(e, r)) == multiset{e} + multiset(r)
  {
    if r != [] && r[0].count > e.count {
      InsertPermutes(e, r[1..]);
      assert r == [r[0]] + r[1..];
    }
  }

  /** Sorting keeps the entries: the result is a permutation of the table. */
  lemma {:induction false} SortPermutes<K>(t: seq<Entry<K>>)
    ensures multiset(SortByCount(t)) == multiset(t)
  {
    if t != [] {
      SortPermutes(t[1..]);
      InsertPermutes(t[0], SortByCount(t[1..]));
      assert t == [t[0]] + t[1..];
    }
  }

  /** An entry ahead of every entry of a ranked table can be put in front of it. */
  lemma ConsRanked<K>(xs: seq<K>, h: Entry<K>, r: seq<Entry<K>>)
    requires Ranked(xs, r)
    requires forall i :: 0 <= i < |r| ==> Ahead(xs, h, r[i])
    ensures Ranked(xs, [h] + r)
  {
    forall i, j | 0 <= i < j < |[h] + r| ensures Ahead(xs, ([h] + r)[i], ([h] + r)[j]) {
      assert ([h] + r)[j] == r[j - 1];
      if i > 0 {
        assert ([h] + r)[i] == r[i - 1];
      }
    }
  }

  /** The first entry of a ranked table is ahead of every entry that results from inserting e into the rest. */
  lemma AheadOfInsert<K>(xs: seq<K>, e: Entry<K>, r: seq<Entry<K>>)
    requires r != [] && Ranked(xs, r) && r[0].count > e.count
    ensures forall i :: 0 <= i < |Insert(e, r[1..])| ==> Ahead(xs, r[0], Insert(e, r[1..])[i])
  {
    var rest := Insert(e, r[1..]);
    InsertPermutes(e, r[1..]);
    forall i | 0 <= i < |rest| ensures Ahead(xs, r[0], rest[i]) {
      assert rest[i] in multiset(rest);
      if rest[i] != e {
        assert rest[i] in multiset(r[1..]);
        var j :| 0 <= j < |r[1..]| && r[1..][j] == rest[i];
        assert r[j + 1] == rest[i];
      }
    }
  }

  /** Inserting an entry whose key was seen before all keys of a ranked r keeps it ranked. */
  lemma {:induction false} InsertRanked<K>(xs: seq<K>, e: Entry<K>, r: seq<Entry<K>>)
    requires Ranked(xs, r)
    requires forall i :: 0 <= i < |r| ==> FirstSeen(xs, e.key) < FirstSeen(xs, r[i].key)
    ensures Ranked(xs, Insert(e, r))
  {
    if r == [] || r[0].count <= e.count {
      forall j | 0 <= j < |r| ensures Ahead(xs, e, r[j]) {
        if j > 0 {
          assert Ahead(xs, r[0], r[j]);
        }
      }
      ConsRanked(xs, e, r);
      assert Insert(e, r) == [e] + r;
    } else {
      assert Ranked(xs, r[1..]) by {
        forall i, j | 0 <= i < j < |r[1..]| ensures Ahead(xs, r[1..][i], r[1..][j]) {
          assert r[1..][i] == r[i + 1] && r[1..][j] == r[j + 1];
        }
      }
      assert forall i :: 0 <= i < |r[1..]| ==> r[1..][i] == r[i + 1];
      InsertRanked(xs, e, r[1..]);
      AheadOfInsert(xs, e, r);
      ConsRanked(xs, r[0], Insert(e, r[1..]));
      assert Insert(e, r) == [r[0]] + Insert(e, r[1..]);
    }
  }

  /**
    Sorting a table whose keys come in first-seen order ranks it: larger counts first, and
    equal counts in first-seen order (the sort is stable).
  */
  lemma {:induction false} SortRanked<K>(xs: seq<K>, t: seq<Entry<K>>)
    requires InFirstSeenOrder(xs, t)
    ensures Ranked(xs, SortByCount(t))
  {
    if t != [] {
      var s := SortByCount(t[1..]);
      assert InFirstSeenOrder(xs, t[1..]) by {
        forall i, j | 0 <= i < j < |t[1..]|
          ensures FirstSeen(xs, t[1..][i].key) < FirstSeen(xs, t[1..][j].key)
        {
          assert t[1..][i] == t[i + 1] && t[1..][j] == t[j + 1];
        }
      }
      SortRanked(xs, t[1..]);
      SortPermutes(t[1..]);
      forall i | 0 <= i < |s| ensures FirstSeen(xs, t[0].key) < FirstSeen(xs, s[i].key) {
        assert s[i] in multiset(t[1..]);
        var j :| 0 <= j < |t[1..]| && t[1..][j] == s[i];
        assert t[j + 1] == s[i];
      }
      InsertRanked(xs, t[0], s);
    }
  }

  /** The entries of `Counter(xs).most_common(n)` are entries of the table `Counter(xs)`. */
  lemma TopNFromTally<K>(xs: seq<K>, n: nat)
    ensures forall i :: 0 <= i < |TopN(xs, n)| ==> TopN(xs, n)[i] in Tally(xs)
    ensures |SortByCount(Tally(xs))| == |Tally(xs)|
  {
    var s := SortByCount(Tally(xs));
    SortPermutes(Tally(xs));
    assert |s| == |multiset(s)| == |Tally(xs)|;
    forall i | 0 <= i < |TopN(xs, n)| ensures TopN(xs, n)[i] in Tally(xs) {
      assert TopN(xs, n)[i] == s[i];
      assert s[i] in multiset(Tally(xs));
    }
  }

  /**
    `Counter(xs).most_common(n)` has min(n, number of distinct elements) entries, each with its
    key's exact number of occurrences in xs, and no key twice.
  */
  lemma MostCommonCounts<K>(xs: seq<K>, n: nat)
    ensures |TopN(xs, n)| == Min(n, |set k | k in xs|)
    ensures forall i :: 0 <= i < |TopN(xs, n)| ==>
              TopN(xs, n)[i].key in xs && TopN(xs, n)[i].count == Count(xs, TopN(xs, n)[i].key)
    ensures DistinctKeys(TopN(xs, n))
  {
    TallySize(xs);
    TopNFromTally(xs, n);
    TallySpec(xs);
    var r := TopN(xs, n);
    forall i | 0 <= i < |r| ensures r[i].key in xs && r[i].count == Count(xs, r[i].key) {
      var j :| 0 <= j < |Tally(xs)| && Tally(xs)[j] == r[i];
      assert r[i].key in KeySet(Tally(xs));
    }
    forall i, j | 0 <= i < j < |r| ensures r[i].key != r[j].key {
      assert r[i].count == Count(xs, r[i].key) && r[j].count == Count(xs, r[j].key);
      assert Ahead(xs, r[i], r[j]) by {
        MostCommonRanked(xs, n);
      }
    }
  }

  /**
    `Counter(xs).most_common(n)` is ranked: counts never increase along it, and equal counts
    come in the order in which their keys first occur in xs.
  */
  lemma MostCommonRanked<K>(xs: seq<K>, n: nat)
    ensures Ranked(xs, TopN(xs, n))
    ensures forall i, j :: 0 <= i < j < |TopN(xs, n)| ==> TopN(xs, n)[i].count >= TopN(xs, n)[j].count
  {
    TallySpec(xs);
    SortRanked(xs, Tally(xs));
    var s, r := SortByCount(Tally(xs)), TopN(xs, n);
    forall i, j | 0 <= i < j < |r| ensures Ahead(xs, r[i], r[j]) {
      assert r[i] == s[i] && r[j] == s[j];
    }
  }

  /**
    Every element of xs left out of `Counter(xs).most_common(n)` is outranked by every entry
    kept, and is left out only when n entries are kept.
  */
  lemma MostCommonComplete<K>(xs: seq<K>, n: nat, k: K)
    requires k in xs && k !in KeySet(TopN(xs, n))
    ensures |TopN(xs, n)| == n
    ensures forall i :: 0 <= i < |TopN(xs, n)| ==> Ahead(xs, TopN(xs, n)[i], Entry(k, Count(xs, k)))
  {
    var s, r := SortByCount(Tally(xs)), TopN(xs, n);
    var p := SortedIndex(xs, k);
    SortedTallyRanked(xs);
    assert forall i :: 0 <= i < |r| ==> r[i] == s[i] && r[i].key in KeySet(r);
    assert |r| <= p;
  }

  /** Where the entry of an element of xs is in the sorted table. */
  lemma SortedIndex<K>(xs: seq<K>, k: K) returns (p: nat)
    requires k in xs
    ensures p < |SortByCount(Tally(xs))| && SortByCount(Tally(xs))[p] == Entry(k, Count(xs, k))
  {
    var t := Tally(xs);
    TallySpec(xs);
    SortPermutes(t);
    assert k in KeySet(t);
    var j :| 0 <= j < |t| && t[j].key == k;
    assert t[j] in multiset(SortByCount(t));
    p :| 0 <= p < |SortByCount(t)| && SortByCount(t)[p] == t[j];
  }

  /** The sorted table of xs is ranked. */
  lemma SortedTallyRanked<K>(xs: seq<K>)
    ensures Ranked(xs, SortByCount(Tally(xs)))
  {
    TallySpec(xs);
    SortRanked(xs, Tally(xs));
  }

  /** The counts of a prefix and of the rest sum to the whole. */
  lemma {:induction false} SumSplit<K>(s: seq<Entry<K>>, m: nat)
    requires m <= |s|
    ensures Sum(s[..m]) + Sum(s[m..]) == Sum(s)
  {
    if m > 0 {
      SumSplit(s[1..], m - 1);
      assert s[..m][1..] == s[1..][..m - 1];
      assert s[m..] == s[1..][m - 1..];
    }
  }

  lemma {:induction false} InsertSum<K>(e: Entry<K>, r: seq<Entry<K>>)
    ensures Sum(Insert(e, r)) == e.count + Sum(r)
  {
    if r != [] && r[0].count > e.count {
      InsertSum(e, r[1..]);
      assert Insert(e, r)[1..] == Insert(e, r[1..]);
    }
  }

  lemma {:induction false} SortSum<K>(t: seq<Entry<K>>)
    ensures Sum(SortByCount(t)) == Sum(t)
  {
    if t != [] {
      SortSum(t[1..]);
      InsertSum(t[0], SortByCount(t[1..]));
    }
  }

  /**
    The counts of `Counter(xs).most_common(n)` add up to at most |xs|, and to exactly |xs|
    when, and only when, xs has at most n distinct elements.
  */
  lemma MostCommonSum<K>(xs: seq<K>, n: nat)
    ensures Sum(TopN(xs, n)) <= |xs|
    ensures Sum(TopN(xs, n)) == |xs| <==> |set k | k in xs| <= n
  {
    var t, s := Tally(xs), SortByCount(Tally(xs));
    TallySum(xs);
    SortSum(t);
    TallySize(xs);
    TopNFromTally(xs, n);
    var m := Min(n, |t|);
    SumSplit(s, m);
    if |t| > n {
      TallySpec(xs);
      SortPermutes(t);
      assert s[m] in multiset(t);
      var j :| 0 <= j < |t| && t[j] == s[m];
      assert t[j].key in KeySet(t);
      assert s[m..][0] == s[m];
      assert Sum(s[m..]) >= 1;
    } else {
      assert s[m..] == [];
    }
  }
}
