/** Python's `collections.Counter` built from an iterable: a dictionary from
    each distinct element to its number of occurrences, whose keys keep the
    order in which they were first inserted. It is modelled as a sequence of
    entries in key order, folding the input from left to right. */
module Counting {

  /** One key of the counter with its count. */
  datatype Entry<K> = Entry(key: K, count: nat)

  /** No key appears twice, as in any dictionary. */
  predicate DistinctKeys<K(==)>(d: seq<Entry<K>>) {
    forall i, j :: 0 <= i < j < |d| ==> d[i].key != d[j].key
  }

  /** `k` is a key of the counter. */
  predicate HasKey<K(==)>(d: seq<Entry<K>>, k: K) {
    exists i :: 0 <= i < |d| && d[i].key == k
  }

  /** The sum of the counts. */
  function Total<K>(d: seq<Entry<K>>): nat {
    if |d| == 0 then 0 else d[0].count + Total(d[1..])
  }

  /** The number of times `k` occurs in `xs`. */
  function Occurrences<K(==)>(xs: seq<K>, k: K): nat {
    if |xs| == 0 then 0
    else Occurrences(xs[..|xs| - 1], k) + (if xs[|xs| - 1] == k then 1 else 0)
  }

  /** The position of the first occurrence of `k` in `xs`, or `|xs|` when
      `k` does not occur. */
  function FirstIndex<K(==)>(xs: seq<K>, k: K): (r: nat)
    ensures r <= |xs|
    ensures r < |xs| ==> xs[r] == k
    ensures forall j :: 0 <= j < r ==> xs[j] != k
  {
    if |xs| == 0 then 0
    else if xs[0] == k then 0
    else 1 + FirstIndex(xs[1..], k)
  }

  /** Counting one more element: an existing key has its count raised by
      one in place; a new key is appended with count one. */
  function Tally<K(==)>(d: seq<Entry<K>>, k: K): (r: seq<Entry<K>>)
    requires DistinctKeys(d)
    ensures DistinctKeys(r)
    ensures HasKey(d, k) ==> |r| == |d|
    ensures HasKey(d, k) ==> forall i :: 0 <= i < |d| ==>
              r[i].key == d[i].key && r[i].count == d[i].count + (if d[i].key == k then 1 else 0)
    ensures !HasKey(d, k) ==> r == d + [Entry(k, 1)]
  {
    if |d| == 0 then [Entry(k, 1)]
    else if d[0].key == k then [Entry(k, d[0].count + 1)] + d[1..]
    else
      assert DistinctKeys(d[1..]);
      assert HasKey(d, k) ==> HasKey(d[1..], k) by {
        if HasKey(d, k) {
          var i :| 0 <= i < |d| && d[i].key == k;
          assert d[1..][i - 1].key == k;
        }
      }
      [d[0]] + Tally(d[1..], k)
  }

  /** `Counter(xs)`: each element of `xs` tallied in turn. */
  function Count<K(==)>(xs: seq<K>): (r: seq<Entry<K>>)
    ensures DistinctKeys(r)
  {
    if |xs| == 0 then [] else Tally(Count(xs[..|xs| - 1]), xs[|xs| - 1])
  }

  /** Tallying an element raises the total by one. */
  lemma {:induction false} TallyTotal<K>(d: seq<Entry<K>>, k: K)
    requires DistinctKeys(d)
    ensures Total(Tally(d, k)) == Total(d) + 1
    decreases |d|
  {
    if |d| > 0 && d[0].key != k {
      assert DistinctKeys(d[1..]);
      TallyTotal(d[1..], k);
      assert ([d[0]] + Tally(d[1..], k))[1..] == Tally(d[1..], k);
    } else if |d| > 0 {
      assert ([Entry(k, d[0].count + 1)] + d[1..])[1..] == d[1..];
    }
  }

  /** The counts sum to the number of counted elements. */
  lemma {:induction false} CountTotal<K>(xs: seq<K>)
    ensures Total(Count(xs)) == |xs|
    decreases |xs|
  {
    if |xs| > 0 {
      CountTotal(xs[..|xs| - 1]);
      TallyTotal(Count(xs[..|xs| - 1]), xs[|xs| - 1]);
    }
  }

  /** The keys are exactly the elements that occur. */
  lemma {:induction false} CountKeys<K>(xs: seq<K>, k: K)
    ensures HasKey(Count(xs), k) <==> k in xs
    decreases |xs|
  {
    if |xs| > 0 {
      var init, last := xs[..|xs| - 1], xs[|xs| - 1];
      assert xs == init + [last];
      CountKeys(init, k);
      var d := Count(init);
      if HasKey(d, last) {
        if HasKey(d, k) {
          var i :| 0 <= i < |d| && d[i].key == k;
          assert Count(xs)[i].key == k;
        }
        if HasKey(Count(xs), k) {
          var i :| 0 <= i < |Count(xs)| && Count(xs)[i].key == k;
          assert d[i].key == k;
        }
      } else {
        assert Count(xs) == d + [Entry(last, 1)];
        if HasKey(d, k) {
          var i :| 0 <= i < |d| && d[i].key == k;
          assert Count(xs)[i].key == k;
        }
        if k == last {
          assert Count(xs)[|d|].key == k;
        }
        if HasKey(Count(xs), k) {
          var i :| 0 <= i < |Count(xs)| && Count(xs)[i].key == k;
          if i < |d| {
            assert d[i].key == k;
          }
        }
      }
    }
  }

  /** An element that does not occur has no occurrences. */
  lemma {:induction false} OccurrencesAbsent<K>(xs: seq<K>, k: K)
    requires k !in xs
    ensures Occurrences(xs, k) == 0
    decreases |xs|
  {
    if |xs| > 0 {
      assert k !in xs[..|xs| - 1];
      OccurrencesAbsent(xs[..|xs| - 1], k);
    }
  }

  /** Every count is the number of occurrences of its key, and none is zero. */
  lemma {:induction false} CountCounts<K>(xs: seq<K>)
    ensures forall i :: 0 <= i < |Count(xs)| ==>
              Count(xs)[i].count == Occurrences(xs, Count(xs)[i].key) && Count(xs)[i].count > 0
    decreases |xs|
  {
    if |xs| > 0 {
      var init, last := xs[..|xs| - 1], xs[|xs| - 1];
      CountCounts(init);
      var d := Count(init);
      if !HasKey(d, last) {
        CountKeys(init, last);
        OccurrencesAbsent(init, last);
      }
    }
  }

  /** The key order is the order of first occurrence in the input. */
  lemma {:induction false} CountOrder<K>(xs: seq<K>)
    ensures forall i, j :: 0 <= i < j < |Count(xs)| ==>
              FirstIndex(xs, Count(xs)[i].key) < FirstIndex(xs, Count(xs)[j].key)
    decreases |xs|
  {
    if |xs| > 0 {
      var init, last := xs[..|xs| - 1], xs[|xs| - 1];
      assert xs == init + [last];
      CountOrder(init);
      var d := Count(init);
      forall i | 0 <= i < |d| ensures FirstIndex(xs, d[i].key) == FirstIndex(init, d[i].key) < |init| {
        assert HasKey(d, d[i].key);
        CountKeys(init, d[i].key);
        FirstIndexExtend(init, last, d[i].key);
      }
      if !HasKey(d, last) {
        CountKeys(init, last);
        FirstIndexExtend(init, last, last);
      }
    }
  }

  /** Appending an element moves no first occurrence of an element that was
      already there, and a new element first occurs at the end. */
  lemma {:induction false} FirstIndexExtend<K>(xs: seq<K>, y: K, k: K)
    ensures k in xs ==> FirstIndex(xs + [y], k) == FirstIndex(xs, k) < |xs|
    ensures k !in xs && y == k ==> FirstIndex(xs + [y], k) == |xs|
    decreases |xs|
  {
    if |xs| > 0 {
      assert (xs + [y])[1..] == xs[1..] + [y];
      FirstIndexExtend(xs[1..], y, k);
    }
  }
}
