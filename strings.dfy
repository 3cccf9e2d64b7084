/**
 * String operations shared by both tokenisers: lower-casing a string,
 * maximal runs of a character class (the result of `re.findall(r'\b\w+\b', s)`
 * and of `str.split()`), and `' '.join(parts)`.
 */
module Strings {
  import opened Chars

  /** `str.lower` on a whole string. */
  function LowerStr(s: string): string {
    seq(|s|, i requires 0 <= i < |s| => Lower(s[i]))
  }

  /** Every character of `s` belongs to the class `p`. */
  predicate All(p: char -> bool, s: string) {
    forall i :: 0 <= i < |s| ==> p(s[i])
  }

  /** No character of `s` belongs to the class `p`. */
  predicate NoneOf(p: char -> bool, s: string) {
    forall i :: 0 <= i < |s| ==> !p(s[i])
  }

  /** A non-empty string of characters of the class `p`. */
  predicate IsRun(p: char -> bool, t: string) {
    |t| > 0 && All(p, t)
  }

  /** Applies `f` to every element of `s`, keeping the order. */
  function Map<A, B>(f: A -> B, s: seq<A>): (r: seq<B>)
    ensures |r| == |s|
  {
    seq(|s|, i requires 0 <= i < |s| => f(s[i]))
  }

  /** The elements of `s` that satisfy `f`, in their order in `s`. */
  function Filter<T>(f: T -> bool, s: seq<T>): (r: seq<T>)
    ensures |r| <= |s|
    ensures forall x :: x in r ==> x in s && f(x)
    ensures forall x :: x in s && f(x) ==> x in r
  {
    if s == [] then []
    else
      assert s == [s[0]] + s[1..];
      (if f(s[0]) then [s[0]] else []) + Filter(f, s[1..])
  }

  /** Each element that `f` keeps occurs in the filtered sequence as often as in `s`; the others not at all. */
  lemma {:induction false} FilterMultiset<T>(f: T -> bool, s: seq<T>)
    ensures forall x :: multiset(Filter(f, s))[x] == if f(x) then multiset(s)[x] else 0
  {
    if s != [] {
      FilterMultiset(f, s[1..]);
      assert s == [s[0]] + s[1..];
    }
  }

  /** The number of elements of `s` that satisfy `p`. */
  function CountWhere<T>(p: T -> bool, s: seq<T>): (n: nat)
    ensures n <= |s|
  {
    if s == [] then 0
    else CountWhere(p, s[..|s| - 1]) + (if p(s[|s| - 1]) then 1 else 0)
  }

  /** The positions of `s` whose element satisfies `p`. */
  function Positions<T>(p: T -> bool, s: seq<T>): set<nat> {
    set i: nat | i < |s| && p(s[i])
  }

  /** Counting the elements that satisfy `p` counts the positions holding one. */
  lemma {:induction false} CountWherePositions<T>(p: T -> bool, s: seq<T>)
    ensures CountWhere(p, s) == |Positions(p, s)|
  {
    if s != [] {
      var init := s[..|s| - 1];
      CountWherePositions(p, init);
      var last := if p(s[|s| - 1]) then {|init|} else {};
      assert Positions(p, s) == Positions(p, init) + last;
      assert |init| !in Positions(p, init);
    }
  }

  /** Length of the longest prefix of `s` whose characters all belong to `p`. */
  function RunLength(p: char -> bool, s: string): (n: nat)
    ensures n <= |s| && All(p, s[..n])
    ensures n < |s| ==> !p(s[n])
  {
    if s == [] || !p(s[0]) then 0 else 1 + RunLength(p, s[1..])
  }

  /** The maximal runs of characters of class `p` in `s`, left to right. */
  function Runs(p: char -> bool, s: string): (r: seq<string>)
    ensures forall k :: 0 <= k < |r| ==> IsRun(p, r[k])
    decreases |s|
  {
    if s == [] then []
    else if !p(s[0]) then Runs(p, s[1..])
    else
      var n := RunLength(p, s);
      [s[..n]] + Runs(p, s[n..])
  }

  /** `' '.join(parts)`. */
  function Join(parts: seq<string>): string {
    if |parts| == 0 then ""
    else if |parts| == 1 then parts[0]
    else parts[0] + " " + Join(parts[1..])
  }

  /** The run length is determined by where the class first fails. */
  lemma {:induction false} RunLengthIs(p: char -> bool, s: string, n: nat)
    requires n <= |s| && All(p, s[..n])
    requires n < |s| ==> !p(s[n])
    ensures RunLength(p, s) == n
  {
    if n > 0 {
      assert p(s[..n][0]);
      assert s[1..][..n - 1] == s[..n][1..];
      RunLengthIs(p, s[1..], n - 1);
    }
  }

  /** A stretch of characters outside the class contains no run. */
  lemma {:induction false} RunsOfGap(p: char -> bool, g: string)
    requires NoneOf(p, g)
    ensures Runs(p, g) == []
    decreases |g|
  {
    if g != [] {
      RunsOfGap(p, g[1..]);
    }
  }

  /**
   * Characterisation of `Runs`: a text that starts with a gap `g` (no
   * character of the class), continues with a run `t` and then with a `rest`
   * that does not start inside the class yields `t` followed by the runs
   * of `rest`.  With `RunsOfGap` this fixes the result for every text.
   */
  lemma {:induction false} RunsCons(p: char -> bool, g: string, t: string, rest: string)
    requires NoneOf(p, g) && IsRun(p, t)
    requires rest == [] || !p(rest[0])
    ensures Runs(p, g + t + rest) == [t] + Runs(p, rest)
    decreases |g|
  {
    var s := g + t + rest;
    if g == [] {
      assert s == t + rest;
      assert s[..|t|] == t;
      RunLengthIs(p, s, |t|);
      assert s[|t|..] == rest;
    } else {
      assert s[0] == g[0];
      assert s[1..] == g[1..] + t + rest;
      RunsCons(p, g[1..], t, rest);
    }
  }

  /** A class property shared by all characters of `s` holds in all its runs. */
  lemma {:induction false} RunsKeep(p: char -> bool, q: char -> bool, s: string)
    requires All(q, s)
    ensures forall k :: 0 <= k < |Runs(p, s)| ==> All(q, Runs(p, s)[k])
    decreases |s|
  {
    if s != [] {
      if !p(s[0]) {
        RunsKeep(p, q, s[1..]);
      } else {
        var n := RunLength(p, s);
        RunsKeep(p, q, s[n..]);
        assert All(q, s[..n]);
      }
    }
  }

  /** Lower-casing keeps the length of the leading run of a class that lower-casing preserves. */
  lemma LowerRunLength(p: char -> bool, s: string)
    requires forall c :: p(Lower(c)) == p(c)
    ensures RunLength(p, LowerStr(s)) == RunLength(p, s)
  {
    var l, n := LowerStr(s), RunLength(p, s);
    forall i | 0 <= i < n ensures p(l[..n][i]) {
      assert s[..n][i] == s[i];
    }
    RunLengthIs(p, l, n);
  }

  /** `Map` over a sequence with a given first element. */
  lemma MapCons<A, B>(f: A -> B, x: A, rest: seq<A>)
    ensures Map(f, [x] + rest) == [f(x)] + Map(f, rest)
  {
  }

  /**
   * Lower-casing commutes with splitting into runs when lower-casing does not
   * move characters in or out of the class.
   */
  lemma {:induction false} RunsLower(p: char -> bool, s: string)
    requires forall c :: p(Lower(c)) == p(c)
    ensures Runs(p, LowerStr(s)) == Map(LowerStr, Runs(p, s))
    decreases |s|
  {
    var l := LowerStr(s);
    if s != [] {
      if !p(s[0]) {
        assert l[1..] == LowerStr(s[1..]);
        RunsLower(p, s[1..]);
      } else {
        var n := RunLength(p, s);
        LowerRunLength(p, s);
        assert l[..n] == LowerStr(s[..n]);
        assert l[n..] == LowerStr(s[n..]);
        RunsLower(p, s[n..]);
        MapCons(LowerStr, s[..n], Runs(p, s[n..]));
      }
    }
  }

  /** Splitting a `' '`-joined list of non-empty, space-free words gives the words back. */
  lemma {:induction false} SplitJoin(parts: seq<string>)
    requires forall k :: 0 <= k < |parts| ==> IsRun(NotSpace, parts[k])
    ensures Runs(NotSpace, Join(parts)) == parts
    decreases |parts|
  {
    if |parts| == 1 {
      RunsCons(NotSpace, "", parts[0], "");
      assert "" + parts[0] + "" == parts[0];
    } else if |parts| > 1 {
      var rest := " " + Join(parts[1..]);
      RunsCons(NotSpace, "", parts[0], rest);
      assert "" + parts[0] + rest == Join(parts);
      assert rest[1..] == Join(parts[1..]);
      SplitJoin(parts[1..]);
    }
  }

  /** A class property of every word that the separator `' '` also has holds of the joined string. */
  lemma {:induction false} JoinKeeps(q: char -> bool, parts: seq<string>)
    requires q(' ')
    requires forall k :: 0 <= k < |parts| ==> All(q, parts[k])
    ensures All(q, Join(parts))
    decreases |parts|
  {
    if |parts| > 1 {
      JoinKeeps(q, parts[1..]);
      var j := Join(parts);
      forall i | 0 <= i < |j| ensures q(j[i]) {
        if i < |parts[0]| {
          assert j[i] == parts[0][i];
        } else if i > |parts[0]| {
          assert j[i] == Join(parts[1..])[i - |parts[0]| - 1];
        }
      }
    }
  }

  /**
   * The whitespace layout of a string made by `' '.join(str.split())`: it
   * neither starts nor ends with whitespace, its only whitespace character is
   * the plain space, and no two whitespace characters are adjacent.
   */
  predicate SingleSpaced(s: string) {
    && (|s| > 0 ==> !IsSpace(s[0]) && !IsSpace(s[|s| - 1]))
    && (forall i :: 0 <= i < |s| && IsSpace(s[i]) ==> s[i] == ' ')
    && (forall i :: 0 <= i < |s| - 1 ==> !(IsSpace(s[i]) && IsSpace(s[i + 1])))
  }

  lemma {:induction false} JoinSingleSpaced(parts: seq<string>)
    requires forall k :: 0 <= k < |parts| ==> IsRun(NotSpace, parts[k])
    ensures SingleSpaced(Join(parts))
    decreases |parts|
  {
    if |parts| == 1 {
      assert All(NotSpace, parts[0]);
    } else if |parts| > 1 {
      var a, b := parts[0], Join(parts[1..]);
      JoinSingleSpaced(parts[1..]);
      assert All(NotSpace, a);
      assert |b| > 0 by {
        assert |parts[1]| > 0;
        JoinStartsWith(parts[1..]);
      }
      var j := Join(parts);
      assert j == a + " " + b;
      forall i | 0 <= i < |j| && IsSpace(j[i]) ensures j[i] == ' ' {
        if i > |a| {
          assert j[i] == b[i - |a| - 1];
        }
      }
      forall i | 0 <= i < |j| - 1 ensures !(IsSpace(j[i]) && IsSpace(j[i + 1])) {
        if i < |a| - 1 {
          assert j[i] == a[i];
        } else if i == |a| - 1 {
          assert j[i] == a[i];
        } else if i == |a| {
          assert j[i + 1] == b[0];
        } else {
          assert j[i] == b[i - |a| - 1] && j[i + 1] == b[i - |a|];
        }
      }
    }
  }

  /** A join of words whose first word is non-empty starts with that word. */
  lemma JoinStartsWith(parts: seq<string>)
    requires |parts| > 0
    ensures |Join(parts)| >= |parts[0]| && Join(parts)[..|parts[0]|] == parts[0]
  {
  }

  /** Lower-casing keeps the whitespace layout. */
  lemma LowerSingleSpaced(s: string)
    requires SingleSpaced(s)
    ensures SingleSpaced(LowerStr(s))
  {
    var l := LowerStr(s);
    forall i | 0 <= i < |l| && IsSpace(l[i]) ensures l[i] == ' ' {
      assert IsSpace(s[i]);
    }
  }

  /** Every character of a lower-cased string is lower case. */
  lemma LowerStrIsLowercase(s: string)
    ensures All(IsLowercase, LowerStr(s))
  {
    forall i | 0 <= i < |s| ensures IsLowercase(LowerStr(s)[i]) {
      LowerIsLowercase(s[i]);
    }
  }
}
