/**
 * `sorted(counter.items(), key=lambda x: x[1], reverse=True)` and
 * `Counter.most_common()`: a stable sort of the items by count, highest
 * first.  Python's sort keeps equal items in their original order even with
 * `reverse=True`, so among equal counts the counter's first-seen order
 * survives.  The model sorts by insertion.
 */
module Ranking {
  import opened Counting

  /** Items of `r` never increase in count from left to right. */
  predicate NonIncreasing(r: seq<Entry>) {
    forall i, j :: 0 <= i < j < |r| ==> r[i].count >= r[j].count
  }

  /** Items of equal count in `r` appear in the order their keys have in `c`. */
  predicate StableFor(r: seq<Entry>, c: seq<Entry>) {
    forall i, j :: 0 <= i < j < |r| && r[i].count == r[j].count ==>
      IndexOfKey(c, r[i].key) < IndexOfKey(c, r[j].key)
  }

  /** Where `x` goes in a ranking: after every item of strictly greater count. */
  function InsertPos(x: Entry, s: seq<Entry>): (p: nat)
    ensures p <= |s|
    ensures forall i :: 0 <= i < p ==> s[i].count > x.count
    ensures p < |s| ==> s[p].count <= x.count
  {
    if s == [] || s[0].count <= x.count then 0 else 1 + InsertPos(x, s[1..])
  }

  function Insert(x: Entry, s: seq<Entry>): seq<Entry> {
    var p := InsertPos(x, s);
    s[..p] + [x] + s[p..]
  }

  /** Element-wise reading of `Insert`. */
  lemma InsertAt(x: Entry, s: seq<Entry>)
    ensures var p, r := InsertPos(x, s), Insert(x, s);
      && |r| == |s| + 1 && r[p] == x
      && (forall i :: 0 <= i < p ==> r[i] == s[i])
      && (forall i :: p < i < |r| ==> r[i] == s[i - 1])
  {
  }

  /** Inserting keeps the multiset of items and adds the item's count to the total. */
  lemma InsertKeeps(x: Entry, s: seq<Entry>)
    ensures multiset(Insert(x, s)) == multiset(s) + multiset{x}
    ensures Total(Insert(x, s)) == Total(s) + x.count
  {
    var p := InsertPos(x, s);
    assert s == s[..p] + s[p..];
    TotalConcat(s[..p] + [x], s[p..]);
    TotalConcat(s[..p], [x]);
    TotalConcat(s[..p], s[p..]);
  }

  /** Inserting into a ranking gives a ranking. */
  lemma InsertSorted(x: Entry, s: seq<Entry>)
    requires NonIncreasing(s)
    ensures NonIncreasing(Insert(x, s))
  {
    var p, r := InsertPos(x, s), Insert(x, s);
    InsertAt(x, s);
    forall i, j | 0 <= i < j < |r| ensures r[i].count >= r[j].count {
      if j == p {
      } else if i == p {
        assert r[j] == s[j - 1];
      } else {
        var i', j' := if i < p then i else i - 1, if j < p then j else j - 1;
        assert r[i] == s[i'] && r[j] == s[j'];
      }
    }
  }

  /** The ranking of a counter's items: each item inserted into the ranking of the items after it. */
  function Rank(c: seq<Entry>): (r: seq<Entry>)
    ensures |r| == |c|
  {
    if c == [] then [] else Insert(c[0], Rank(c[1..]))
  }

  /** The ranking is a permutation of the items whose counts never increase. */
  lemma {:induction false} RankSortedPermutation(c: seq<Entry>)
    ensures |Rank(c)| == |c| && multiset(Rank(c)) == multiset(c)
    ensures NonIncreasing(Rank(c))
  {
    if c != [] {
      RankSortedPermutation(c[1..]);
      InsertKeeps(c[0], Rank(c[1..]));
      InsertSorted(c[0], Rank(c[1..]));
      assert c == [c[0]] + c[1..];
    }
  }

  /** Inserting an item whose key is new keeps the keys distinct. */
  lemma InsertDistinct(x: Entry, s: seq<Entry>)
    requires DistinctKeys(s)
    requires forall i :: 0 <= i < |s| ==> s[i].key != x.key
    ensures DistinctKeys(Insert(x, s))
  {
    var p, r := InsertPos(x, s), Insert(x, s);
    InsertAt(x, s);
    forall i, j | 0 <= i < j < |r| ensures r[i].key != r[j].key {
      if i != p && j != p {
        var i', j' := if i < p then i else i - 1, if j < p then j else j - 1;
        assert r[i] == s[i'] && r[j] == s[j'];
      }
    }
  }

  /**
   * Inserting an item that comes before every item of `s` in `c` keeps the
   * items of equal count in `c`'s order.
   */
  lemma InsertStable(x: Entry, s: seq<Entry>, c: seq<Entry>)
    requires StableFor(s, c)
    requires forall i :: 0 <= i < |s| ==> IndexOfKey(c, x.key) < IndexOfKey(c, s[i].key)
    ensures StableFor(Insert(x, s), c)
  {
    var p, r := InsertPos(x, s), Insert(x, s);
    InsertAt(x, s);
    forall i, j | 0 <= i < j < |r| && r[i].count == r[j].count
      ensures IndexOfKey(c, r[i].key) < IndexOfKey(c, r[j].key)
    {
      if i != p && j != p {
        var i', j' := if i < p then i else i - 1, if j < p then j else j - 1;
        assert r[i] == s[i'] && r[j] == s[j'];
      } else if i == p {
        assert r[j] == s[j - 1];
      }
    }
  }

  /**
   * A permutation of a counter's tail holds none of the head's key, and each
   * of its keys sits one place further on in the counter than in the tail,
   * so an order that follows the tail also follows the counter.
   */
  lemma TailKeys(c: seq<Entry>, s: seq<Entry>)
    requires DistinctKeys(c) && c != [] && multiset(s) == multiset(c[1..])
    ensures forall i :: 0 <= i < |s| ==> s[i].key != c[0].key
    ensures forall i :: 0 <= i < |s| ==> IndexOfKey(c, c[0].key) < IndexOfKey(c, s[i].key)
    ensures StableFor(s, c[1..]) ==> StableFor(s, c)
  {
    var t := c[1..];
    forall i | 0 <= i < |s| ensures s[i].key != c[0].key && IndexOfKey(c, s[i].key) == 1 + IndexOfKey(t, s[i].key) {
      assert s[i] in multiset(t);
      var j :| 0 <= j < |t| && t[j] == s[i];
      assert c[j + 1] == t[j];
    }
  }

  /**
   * The ranking is stable: items of equal count keep the relative order
   * they have in the counter, and its keys stay distinct.
   */
  lemma {:induction false} RankStable(c: seq<Entry>)
    requires DistinctKeys(c)
    ensures DistinctKeys(Rank(c)) && StableFor(Rank(c), c)
  {
    if c != [] {
      var x, t := c[0], c[1..];
      assert DistinctKeys(t);
      RankStable(t);
      RankSortedPermutation(t);
      var s := Rank(t);
      TailKeys(c, s);
      InsertDistinct(x, s);
      InsertStable(x, s, c);
    }
  }

  /** Ranking does not change the total of the counts. */
  lemma {:induction false} RankTotal(c: seq<Entry>)
    ensures Total(Rank(c)) == Total(c)
  {
    if c != [] {
      RankTotal(c[1..]);
      InsertKeeps(c[0], Rank(c[1..]));
      TotalConcat([c[0]], c[1..]);
      assert [c[0]] + c[1..] == c;
    }
  }

  /** Ranking a counter gives a counter with the same count for every key. */
  lemma RankLookup(c: seq<Entry>)
    requires DistinctKeys(c)
    ensures IsCounter(c) ==> IsCounter(Rank(c))
    ensures forall k :: Lookup(Rank(c), k) == Lookup(c, k)
  {
    var r := Rank(c);
    RankStable(c);
    RankSortedPermutation(c);
    if IsCounter(c) {
      forall i | 0 <= i < |r| ensures r[i].count > 0 {
        assert r[i] in multiset(c);
      }
    }
    forall k ensures Lookup(r, k) == Lookup(c, k) {
      if k in KeySet(c) {
        var i :| 0 <= i < |c| && c[i].key == k;
        assert c[i] in multiset(r);
        var j :| 0 <= j < |r| && r[j] == c[i];
        LookupMember(c, i);
        LookupMember(r, j);
      } else {
        forall j | 0 <= j < |r| ensures r[j].key != k {
          assert r[j] in multiset(c);
          var i :| 0 <= i < |c| && c[i] == r[j];
          assert c[i].key in KeySet(c);
        }
        LookupAbsent(c, k);
        LookupAbsent(r, k);
      }
    }
  }

  /**
   * Ranking the counter of a word list: items of equal count appear in the
   * order in which their words first occur in the list.
   */
  lemma RankTiesFirstSeen(ws: seq<string>)
    ensures var r := Rank(Count(ws));
      forall i, j :: 0 <= i < j < |r| && r[i].count == r[j].count ==>
        FirstIndex(ws, r[i].key) < FirstIndex(ws, r[j].key)
  {
    var c := Count(ws);
    var r := Rank(c);
    RankStable(c);
    RankSortedPermutation(c);
    forall i, j | 0 <= i < j < |r| && r[i].count == r[j].count
      ensures FirstIndex(ws, r[i].key) < FirstIndex(ws, r[j].key)
    {
      assert r[i] in multiset(c) && r[j] in multiset(c);
      var a, b := IndexOfKey(c, r[i].key), IndexOfKey(c, r[j].key);
      var i' :| 0 <= i' < |c| && c[i'] == r[i];
      var j' :| 0 <= j' < |c| && c[j'] == r[j];
      assert r[i].key in KeySet(c) && r[j].key in KeySet(c);
      assert c[a].key == r[i].key && c[b].key == r[j].key;
    }
  }
}
