/** Sequences of seats: distinctness, positions, rotation and sums of per-player counters. */
module Seating {

  /** No player id occurs twice: the last id is not among the earlier ones, which are distinct. */
  predicate Distinct<P(==)>(s: seq<P>)
  {
    |s| == 0 || (s[|s| - 1] !in s[..|s| - 1] && Distinct(s[..|s| - 1]))
  }

  /** Distinctness, seat by seat: no id occurs before its own position. */
  lemma {:induction false} DistinctAt<P>(s: seq<P>)
    requires Distinct(s)
    ensures forall i :: 0 <= i < |s| ==> s[i] !in s[..i]
  {
    if |s| > 0 {
      var init := s[..|s| - 1];
      DistinctAt(init);
      forall i | 0 <= i < |init|
        ensures s[i] !in s[..i]
      {
        assert s[i] == init[i] && s[..i] == init[..i];
      }
    }
  }

  /** The converse of `DistinctAt`. */
  lemma {:induction false} DistinctFromAt<P>(s: seq<P>)
    requires forall i :: 0 <= i < |s| ==> s[i] !in s[..i]
    ensures Distinct(s)
  {
    if |s| > 0 {
      var init := s[..|s| - 1];
      forall i | 0 <= i < |init|
        ensures init[i] !in init[..i]
      {
        assert s[i] == init[i] && s[..i] == init[..i];
      }
      DistinctFromAt(init);
    }
  }

  /** Distinctness, pair by pair: two different seats hold different ids. */
  lemma DistinctPairs<P>(s: seq<P>)
    requires Distinct(s)
    ensures forall i, j :: 0 <= i < j < |s| ==> s[i] != s[j]
  {
    DistinctAt(s);
    forall i, j | 0 <= i < j < |s|
      ensures s[i] != s[j]
    {
      assert s[..j][i] == s[i];
    }
  }

  /** The converse of `DistinctPairs`. */
  lemma PairsDistinct<P>(s: seq<P>)
    requires forall i, j :: 0 <= i < j < |s| ==> s[i] != s[j]
    ensures Distinct(s)
  {
    assert forall i :: 0 <= i < |s| ==> s[i] !in s[..i];
    DistinctFromAt(s);
  }

  function SetOf<P(==)>(s: seq<P>): set<P>
  {
    set p | p in s
  }

  lemma SetOfSnoc<P>(s: seq<P>, x: P)
    ensures SetOf(s + [x]) == SetOf(s) + {x}
  {
  }

  /** Position of `p` in `s` (Python's `list.index`: the first occurrence). */
  function IndexOf<P(==)>(s: seq<P>, p: P): (i: nat)
    requires p in s
    ensures i < |s| && s[i] == p
    ensures forall j :: 0 <= j < i ==> s[j] != p
  {
    if s[0] == p then 0 else 1 + IndexOf(s[1..], p)
  }

  /** The seat after `p`, wrapping round the table. */
  function NextSeat<P(==)>(s: seq<P>, p: P): (q: P)
    requires p in s
    ensures q in s
    ensures q == s[(IndexOf(s, p) + 1) % |s|]
  {
    s[(IndexOf(s, p) + 1) % |s|]
  }

  /** In a seating without repeats, the seat after position `i` is position `i + 1`, wrapping from the
      last seat to the first; with two or more seats nobody follows themselves. */
  lemma NextSeatByPosition<P>(s: seq<P>, i: int)
    requires Distinct(s) && 0 <= i < |s|
    ensures NextSeat(s, s[i]) == if i + 1 < |s| then s[i + 1] else s[0]
    ensures |s| >= 2 ==> NextSeat(s, s[i]) != s[i]
  {
    DistinctPairs(s);
    assert IndexOf(s, s[i]) == i;
    var j := WrapSucc(i, |s|);
    if |s| >= 2 {
      if j < i { assert s[j] != s[i]; } else { assert s[i] != s[j]; }
    }
  }

  /** `(i + 1) % n` for a position `i` below `n`. */
  lemma WrapSucc(i: int, n: int) returns (j: int)
    requires 0 <= i < n
    ensures j == (i + 1) % n
    ensures j == if i + 1 < n then i + 1 else 0
  {
    j := if i + 1 < n then i + 1 else 0;
  }

  /** `s[k:] + s[:k]`: the seating read starting at seat `k`. */
  function Rotate<P>(s: seq<P>, k: int): (r: seq<P>)
    requires 0 <= k < |s|
    ensures |r| == |s|
    ensures r[0] == s[k]
    ensures forall i :: 0 <= i < |s| - k ==> r[i] == s[k + i]
    ensures forall i :: |s| - k <= i < |s| ==> r[i] == s[k + i - |s|]
  {
    s[k..] + s[..k]
  }

  lemma RotatePreservesSeating<P>(s: seq<P>, k: int)
    requires 0 <= k < |s|
    requires Distinct(s)
    ensures Distinct(Rotate(s, k))
    ensures SetOf(Rotate(s, k)) == SetOf(s)
  {
    var r := Rotate(s, k);
    DistinctPairs(s);
    forall i, j | 0 <= i < j < |r|
      ensures r[i] != r[j]
    {
      var a := if i < |s| - k then k + i else k + i - |s|;
      var b := if j < |s| - k then k + j else k + j - |s|;
      assert r[i] == s[a] && r[j] == s[b] && a != b;
      if a > b {
        assert s[b] != s[a];
      }
    }
    PairsDistinct(r);
    forall p | p in s
      ensures p in r
    {
      var i :| 0 <= i < |s| && s[i] == p;
      if i >= k {
        assert r[i - k] == p;
      } else {
        assert r[|s| - k + i] == p;
      }
    }
  }

  /** The number of distinct ids in a duplicate-free sequence is its length. */
  lemma {:induction false} DistinctCardinality<P>(s: seq<P>)
    requires Distinct(s)
    ensures |SetOf(s)| == |s|
  {
    if |s| > 0 {
      var init := s[..|s| - 1];
      assert Distinct(init);
      DistinctCardinality(init);
      assert SetOf(s) == SetOf(init) + {s[|s| - 1]};
      assert s[|s| - 1] !in SetOf(init);
    }
  }

  function Get<K(==), V>(m: map<K, V>, k: K, default: V): V
  {
    if k in m then m[k] else default
  }

  /** The sum of `m[p]` over the ids in `ps`, counting a missing id as 0. */
  function SumOver<P(==)>(ps: seq<P>, m: map<P, int>): int
  {
    if |ps| == 0 then 0 else SumOver(ps[..|ps| - 1], m) + Get(m, ps[|ps| - 1], 0)
  }

  lemma SumOverAppend<P>(ps: seq<P>, p: P, m: map<P, int>)
    ensures SumOver(ps + [p], m) == SumOver(ps, m) + Get(m, p, 0)
  {
    assert (ps + [p])[..|ps|] == ps;
  }

  /** Changing the counter of an id that is not listed leaves the sum unchanged. */
  lemma {:induction false} SumOverUnlisted<P>(ps: seq<P>, m: map<P, int>, p: P, v: int)
    requires p !in ps
    ensures SumOver(ps, m[p := v]) == SumOver(ps, m)
  {
    if |ps| > 0 {
      SumOverUnlisted(ps[..|ps| - 1], m, p, v);
    }
  }

  /** Adding `k` to the counter of one listed id adds exactly `k` to the sum. */
  lemma {:induction false} SumOverBump<P>(ps: seq<P>, m: map<P, int>, p: P, k: int)
    requires Distinct(ps)
    requires p in ps
    ensures SumOver(ps, m[p := Get(m, p, 0) + k]) == SumOver(ps, m) + k
  {
    var init, last := ps[..|ps| - 1], ps[|ps| - 1];
    assert Distinct(init);
    if last == p {
      assert p !in init;
      SumOverUnlisted(init, m, p, Get(m, p, 0) + k);
    } else {
      assert p in init;
      SumOverBump(init, m, p, k);
    }
  }

  /** If every listed counter lies in [0, hi], the sum lies in [0, |ps| * hi]. */
  lemma {:induction false} SumOverBounds<P>(ps: seq<P>, m: map<P, int>, hi: int)
    requires forall p :: p in ps ==> 0 <= Get(m, p, 0) <= hi
    ensures 0 <= SumOver(ps, m) <= |ps| * hi
  {
    if |ps| > 0 {
      var init := ps[..|ps| - 1];
      assert forall p :: p in init ==> p in ps;
      SumOverBounds(init, m, hi);
      assert |ps| * hi == |init| * hi + hi;
    }
  }

  /** Sums over two sequences agree when the sequences list the same ids and the maps agree on them. */
  lemma {:induction false} SumOverAgree<P>(ps: seq<P>, m1: map<P, int>, m2: map<P, int>)
    requires forall p :: p in ps ==> Get(m1, p, 0) == Get(m2, p, 0)
    ensures SumOver(ps, m1) == SumOver(ps, m2)
  {
    if |ps| > 0 {
      var init := ps[..|ps| - 1];
      assert forall p :: p in init ==> p in ps;
      SumOverAgree(init, m1, m2);
    }
  }
}
