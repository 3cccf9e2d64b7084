/**
 * `collections.Counter` as used by both scripts: an insertion-ordered table
 * from key to occurrence count.  It is modelled as the list of its items in
 * first-seen order, because that order is what the stable ranking later
 * falls back on for equal counts.
 */
module Counting {

  /** One `(key, count)` item of a counter. */
  datatype Entry = Entry(key: string, count: nat)

  /** No key occurs twice among the items. */
  predicate DistinctKeys(c: seq<Entry>) {
    forall i, j :: 0 <= i < j < |c| ==> c[i].key != c[j].key
  }

  /** The shape of a counter built from a word list: distinct keys, positive counts. */
  predicate IsCounter(c: seq<Entry>) {
    DistinctKeys(c) && forall i :: 0 <= i < |c| ==> c[i].count > 0
  }

  function KeySet(c: seq<Entry>): set<string> {
    set i | 0 <= i < |c| :: c[i].key
  }

  /** `counter[k]`: the count of the first item with key `k`, 0 for a missing key. */
  function Lookup(c: seq<Entry>, k: string): nat {
    if c == [] then 0
    else if c[0].key == k then c[0].count
    else Lookup(c[1..], k)
  }

  /** Position of the first item with key `k`; `|c|` when there is none. */
  function IndexOfKey(c: seq<Entry>, k: string): (i: nat)
    ensures i <= |c|
    ensures i < |c| <==> k in KeySet(c)
    ensures i < |c| ==> c[i].key == k
  {
    if c == [] then 0
    else if c[0].key == k then 0
    else
      KeySetTail(c);
      1 + IndexOfKey(c[1..], k)
  }

  /** Position of the first occurrence of `w` in `ws`; `|ws|` when there is none. */
  function FirstIndex(ws: seq<string>, w: string): (i: nat)
    ensures i <= |ws|
    ensures i < |ws| <==> w in ws
    ensures i < |ws| ==> ws[i] == w
  {
    if ws == [] then 0
    else if ws[0] == w then 0
    else 1 + FirstIndex(ws[1..], w)
  }

  /** `sum(counter.values())`. */
  function Total(c: seq<Entry>): nat {
    if c == [] then 0 else Total(c[..|c| - 1]) + c[|c| - 1].count
  }

  /**
   * `counter[k] += 1`: the item with key `k` is incremented where it stands;
   * a new key is appended with count 1.
   */
  function Increment(c: seq<Entry>, k: string): (r: seq<Entry>)
    ensures forall x :: Lookup(r, x) == Lookup(c, x) + (if x == k then 1 else 0)
    ensures k in KeySet(c) ==> |r| == |c| && forall i :: 0 <= i < |c| ==> r[i].key == c[i].key
    ensures k !in KeySet(c) ==> r == c + [Entry(k, 1)]
    ensures (forall i :: 0 <= i < |c| ==> c[i].count > 0) ==> forall i :: 0 <= i < |r| ==> r[i].count > 0
  {
    if c == [] then [Entry(k, 1)]
    else if c[0].key == k then [Entry(k, c[0].count + 1)] + c[1..]
    else
      KeySetTail(c);
      assert [c[0]] + (c[1..] + [Entry(k, 1)]) == c + [Entry(k, 1)];
      [c[0]] + Increment(c[1..], k)
  }

  /**
   * `Counter(ws)`: the words counted one after the other.  The result has
   * distinct keys and positive counts, counts every key as often as it occurs,
   * has exactly the words of `ws` as keys, and lists the keys in the order of
   * their first occurrence in `ws`.
   */
  function Count(ws: seq<string>): (c: seq<Entry>)
    ensures IsCounter(c)
    ensures forall w :: Lookup(c, w) == multiset(ws)[w]
    ensures KeySet(c) == set w | w in ws
    ensures forall i, j :: 0 <= i < j < |c| ==> FirstIndex(ws, c[i].key) < FirstIndex(ws, c[j].key)
  {
    if ws == [] then []
    else
      var init, w := ws[..|ws| - 1], ws[|ws| - 1];
      assert ws == init + [w];
      CountStep(init, w, Count(init));
      Increment(Count(init), w)
  }

  /** One step of `Count`: counting one more word keeps the four properties of the counter. */
  lemma CountStep(init: seq<string>, w: string, c0: seq<Entry>)
    requires IsCounter(c0)
    requires forall x :: Lookup(c0, x) == multiset(init)[x]
    requires KeySet(c0) == set x | x in init
    requires forall i, j :: 0 <= i < j < |c0| ==> FirstIndex(init, c0[i].key) < FirstIndex(init, c0[j].key)
    ensures var r, ws := Increment(c0, w), init + [w];
      && IsCounter(r)
      && (forall x :: Lookup(r, x) == multiset(ws)[x])
      && KeySet(r) == (set x | x in ws)
      && (forall i, j :: 0 <= i < j < |r| ==> FirstIndex(ws, r[i].key) < FirstIndex(ws, r[j].key))
  {
    assert multiset(init + [w]) == multiset(init) + multiset{w};
    CountStepKeys(init, w, c0);
    CountStepOrder(init, w, c0);
  }

  /** Counting one more word keeps the keys distinct and adds the word to them. */
  lemma CountStepKeys(init: seq<string>, w: string, c0: seq<Entry>)
    requires IsCounter(c0)
    requires KeySet(c0) == set x | x in init
    ensures IsCounter(Increment(c0, w)) && KeySet(Increment(c0, w)) == set x | x in init + [w]
  {
    var r := Increment(c0, w);
    assert (set x | x in init + [w]) == (set x | x in init) + {w};
    if w in KeySet(c0) {
      assert KeySet(r) == KeySet(c0);
    } else {
      KeySetAppend(c0, Entry(w, 1));
      forall i | 0 <= i < |c0| ensures c0[i].key != w {
        assert c0[i].key in KeySet(c0);
      }
    }
  }

  /** Counting one more word keeps the keys in the order of their first occurrence. */
  lemma CountStepOrder(init: seq<string>, w: string, c0: seq<Entry>)
    requires KeySet(c0) == set x | x in init
    requires forall i, j :: 0 <= i < j < |c0| ==> FirstIndex(init, c0[i].key) < FirstIndex(init, c0[j].key)
    ensures var r, ws := Increment(c0, w), init + [w];
      forall i, j :: 0 <= i < j < |r| ==> FirstIndex(ws, r[i].key) < FirstIndex(ws, r[j].key)
  {
    var ws := init + [w];
    FirstIndexExtend(init, w);
    forall i | 0 <= i < |c0| ensures c0[i].key in init && FirstIndex(ws, c0[i].key) < |init| {
      assert c0[i].key in KeySet(c0);
    }
  }

  /** Appending a word leaves the first index of every earlier word unchanged. */
  lemma {:induction false} FirstIndexExtend(ws: seq<string>, w: string)
    ensures forall x :: x in ws ==> FirstIndex(ws + [w], x) == FirstIndex(ws, x)
    ensures w !in ws ==> FirstIndex(ws + [w], w) == |ws|
  {
    if ws != [] {
      assert (ws + [w])[1..] == ws[1..] + [w];
      FirstIndexExtend(ws[1..], w);
    }
  }

  lemma KeySetAppend(c: seq<Entry>, e: Entry)
    ensures KeySet(c + [e]) == KeySet(c) + {e.key}
  {
    var d := c + [e];
    forall x | x in KeySet(d) ensures x in KeySet(c) + {e.key} {
      var i :| 0 <= i < |d| && d[i].key == x;
      if i < |c| { assert c[i] == d[i]; }
    }
    forall x | x in KeySet(c) ensures x in KeySet(d) {
      var i :| 0 <= i < |c| && c[i].key == x;
      assert d[i] == c[i];
    }
    assert d[|c|] == e;
  }

  lemma KeySetTail(c: seq<Entry>)
    requires c != []
    ensures KeySet(c) == {c[0].key} + KeySet(c[1..])
  {
    var t := c[1..];
    forall x | x in KeySet(c) ensures x in {c[0].key} + KeySet(t) {
      var i :| 0 <= i < |c| && c[i].key == x;
      if i > 0 { assert t[i - 1] == c[i]; }
    }
    forall x | x in KeySet(t) ensures x in KeySet(c) {
      var i :| 0 <= i < |t| && t[i].key == x;
      assert c[i + 1] == t[i];
    }
  }

  /** The total of a concatenation is the sum of the totals. */
  lemma {:induction false} TotalConcat(a: seq<Entry>, b: seq<Entry>)
    ensures Total(a + b) == Total(a) + Total(b)
    decreases |b|
  {
    if b != [] {
      var b0 := b[..|b| - 1];
      assert (a + b)[..|a + b| - 1] == a + b0;
      TotalConcat(a, b0);
    } else {
      assert a + b == a;
    }
  }

  lemma {:induction false} IncrementTotal(c: seq<Entry>, k: string)
    ensures Total(Increment(c, k)) == Total(c) + 1
    decreases |c|
  {
    if c == [] {
    } else if c[0].key == k {
      TotalConcat([Entry(k, c[0].count + 1)], c[1..]);
      TotalConcat([c[0]], c[1..]);
      assert [c[0]] + c[1..] == c;
    } else {
      IncrementTotal(c[1..], k);
      TotalConcat([c[0]], Increment(c[1..], k));
      TotalConcat([c[0]], c[1..]);
      assert [c[0]] + c[1..] == c;
    }
  }

  /** The keys of a counter with distinct keys are as many as its items. */
  lemma {:induction false} DistinctKeyCount(c: seq<Entry>)
    requires DistinctKeys(c)
    ensures |KeySet(c)| == |c|
  {
    if c != [] {
      DistinctKeyCount(c[1..]);
      KeySetTail(c);
      forall x | x in KeySet(c[1..]) ensures x != c[0].key {
        var j :| 0 <= j < |c[1..]| && c[1..][j].key == x;
        assert c[j + 1] == c[1..][j];
      }
    }
  }

  /**
   * The totals printed by the sight-word script: the counts add up to the
   * number of words, and there are as many keys as distinct words.
   */
  lemma {:induction false} CountTotals(ws: seq<string>)
    ensures Total(Count(ws)) == |ws|
    ensures |Count(ws)| == |set w | w in ws|
    ensures |set w | w in ws| <= |ws|
    decreases |ws|
  {
    if ws != [] {
      var init, w := ws[..|ws| - 1], ws[|ws| - 1];
      CountTotals(init);
      IncrementTotal(Count(init), w);
    }
    DistinctKeyCount(Count(ws));
  }

  /** In a counter with distinct keys, `Lookup` finds each item's own count. */
  lemma {:induction false} LookupMember(c: seq<Entry>, i: nat)
    requires DistinctKeys(c) && i < |c|
    ensures Lookup(c, c[i].key) == c[i].count
  {
    if i > 0 {
      assert c[1..][i - 1] == c[i];
      LookupMember(c[1..], i - 1);
    }
  }

  /** `Lookup` of a key no item has is 0. */
  lemma {:induction false} LookupAbsent(c: seq<Entry>, k: string)
    requires k !in KeySet(c)
    ensures Lookup(c, k) == 0
  {
    if c != [] {
      KeySetTail(c);
      LookupAbsent(c[1..], k);
    }
  }

  /** Totals of prefixes grow with the prefix. */
  lemma {:induction false} PrefixTotalMonotone(r: seq<Entry>, m: nat, n: nat)
    requires m <= n <= |r|
    ensures Total(r[..m]) <= Total(r[..n])
    decreases n - m
  {
    if m < n {
      PrefixTotalMonotone(r, m + 1, n);
      assert r[..m + 1][..m] == r[..m];
    }
  }

  /** Counting one more word increments its count. */
  lemma CountAppend(ws: seq<string>, w: string)
    ensures Count(ws + [w]) == Increment(Count(ws), w)
  {
    assert (ws + [w])[..|ws|] == ws;
  }

  /** `part / total`, computed exactly. */
  function Fraction(part: nat, total: nat): real
    requires total > 0
  {
    part as real / total as real
  }

  /** Dividing by a positive number keeps the order of non-negative numbers. */
  lemma DivideKeepsOrder(x: real, y: real, t: real)
    requires 0.0 <= x <= y && t > 0.0
    ensures 0.0 <= x / t <= y / t
  {
  }

  /** A positive number divided by itself is one. */
  lemma DivideSelf(t: real)
    requires t > 0.0
    ensures t / t == 1.0
  {
  }

  /** A larger part is a larger share of the same total; a part of the total is at most all of it. */
  lemma FractionMonotone(part1: nat, part2: nat, total: nat)
    requires part1 <= part2 && total > 0
    ensures 0.0 <= Fraction(part1, total) <= Fraction(part2, total)
    ensures part2 <= total ==> Fraction(part2, total) <= 1.0
    ensures part2 == total ==> Fraction(part2, total) == 1.0
  {
    var t := total as real;
    DivideKeepsOrder(part1 as real, part2 as real, t);
    DivideSelf(t);
    if part2 <= total {
      DivideKeepsOrder(part2 as real, t, t);
    }
  }
}
