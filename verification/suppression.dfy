/** Non-maximum suppression over any kind of box: a stable descending sort on
    a two-part rank, then the greedy loop that keeps the front box and drops
    every remaining box it overlaps too much. Both decoders instantiate it
    with their own rank (confidence, field 3) and their own overlap test. */
module Suppression {

  /** The sort key `itemgetter(1, 3)`: a pair compared like a Python tuple. */
  datatype Rank = Rank(primary: real, secondary: real)

  /** Strictly ahead in the descending order. */
  predicate Above(a: Rank, b: Rank)
  {
    a.primary > b.primary || (a.primary == b.primary && a.secondary > b.secondary)
  }

  /** Ahead of or tied with. */
  predicate AtLeast(a: Rank, b: Rank)
  {
    !Above(b, a)
  }

  ghost predicate SortedDesc<B(!new)>(s: seq<B>, rank: B -> Rank)
  {
    forall i, j :: 0 <= i < j < |s| ==> AtLeast(rank(s[i]), rank(s[j]))
  }

  /** `a` is obtained from `b` by deleting elements, keeping the rest in order. */
  ghost predicate IsSubsequence<B(!new)>(a: seq<B>, b: seq<B>)
    decreases |b|
  {
    if a == [] then true
    else if b == [] then false
    else (a[0] == b[0] && IsSubsequence(a[1..], b[1..])) || IsSubsequence(a, b[1..])
  }

  // ---------------------------------------------------------------------
  // Subsequences
  // ---------------------------------------------------------------------

  lemma {:induction false} SubsequenceFacts<B(!new)>(a: seq<B>, b: seq<B>)
    requires IsSubsequence(a, b)
    ensures |a| <= |b|
    ensures forall x :: x in a ==> x in b
    decreases |b|
  {
    if a != [] {
      if a[0] == b[0] && IsSubsequence(a[1..], b[1..]) {
        SubsequenceFacts(a[1..], b[1..]);
        forall x | x in a ensures x in b {
          if x != a[0] { assert x in a[1..]; }
        }
      } else {
        SubsequenceFacts(a, b[1..]);
      }
    }
  }

  lemma {:induction false} SubsequenceTransitive<B(!new)>(a: seq<B>, b: seq<B>, c: seq<B>)
    requires IsSubsequence(a, b) && IsSubsequence(b, c)
    ensures IsSubsequence(a, c)
    decreases |c|
  {
    if a != [] {
      assert b != [] && c != [];
      if b[0] == c[0] && IsSubsequence(b[1..], c[1..]) {
        if a[0] == b[0] && IsSubsequence(a[1..], b[1..]) {
          SubsequenceTransitive(a[1..], b[1..], c[1..]);
        } else {
          SubsequenceTransitive(a, b[1..], c[1..]);
        }
      } else {
        SubsequenceTransitive(a, b, c[1..]);
      }
    }
  }

  /** Deleting elements from a sorted sequence leaves it sorted. */
  lemma {:induction false} SubsequenceSorted<B(!new)>(a: seq<B>, b: seq<B>, rank: B -> Rank)
    requires IsSubsequence(a, b) && SortedDesc(b, rank)
    ensures SortedDesc(a, rank)
    decreases |b|
  {
    if a != [] {
      assert SortedDesc(b[1..], rank);
      if a[0] == b[0] && IsSubsequence(a[1..], b[1..]) {
        SubsequenceSorted(a[1..], b[1..], rank);
        SubsequenceFacts(a[1..], b[1..]);
        forall i, j | 0 <= i < j < |a| ensures AtLeast(rank(a[i]), rank(a[j])) {
          if i > 0 {
            assert a[i] == a[1..][i - 1] && a[j] == a[1..][j - 1];
          } else {
            assert a[j] in a[1..];
          }
        }
      } else {
        SubsequenceSorted(a, b[1..], rank);
      }
    }
  }

  // ---------------------------------------------------------------------
  // Stable descending sort
  // ---------------------------------------------------------------------

  /** Places `x` in front of the first element that is not strictly ahead of
      it, so `x` precedes every element it ties with. */
  function Insert<B(!new)>(x: B, s: seq<B>, rank: B -> Rank): (r: seq<B>)
    ensures multiset(r) == multiset(s) + multiset{x}
    ensures |r| == |s| + 1
  {
    if s == [] then [x]
    else if Above(rank(s[0]), rank(x)) then
      assert s == [s[0]] + s[1..];
      [s[0]] + Insert(x, s[1..], rank)
    else [x] + s
  }

  lemma {:induction false} InsertSorted<B(!new)>(x: B, s: seq<B>, rank: B -> Rank)
    requires SortedDesc(s, rank)
    ensures SortedDesc(Insert(x, s, rank), rank)
    decreases |s|
  {
    if s != [] {
      var r := Insert(x, s, rank);
      if Above(rank(s[0]), rank(x)) {
        var t := Insert(x, s[1..], rank);
        assert SortedDesc(s[1..], rank);
        InsertSorted(x, s[1..], rank);
        assert r == [s[0]] + t;
        forall j | 0 <= j < |t| ensures AtLeast(rank(s[0]), rank(t[j])) {
          assert t[j] in multiset(t);
          assert t[j] == x || t[j] in multiset(s[1..]);
          if t[j] != x {
            assert t[j] in s[1..];
            var k :| 0 <= k < |s[1..]| && s[1..][k] == t[j];
            assert s[k + 1] == t[j];
          }
        }
        forall i, j | 0 <= i < j < |r| ensures AtLeast(rank(r[i]), rank(r[j])) {
          if i > 0 {
            assert r[i] == t[i - 1] && r[j] == t[j - 1];
          } else {
            assert r[j] == t[j - 1];
          }
        }
      } else {
        forall i, j | 0 <= i < j < |r| ensures AtLeast(rank(r[i]), rank(r[j])) {
          if i > 0 {
            assert r[i] == s[i - 1] && r[j] == s[j - 1];
          } else {
            assert r[j] == s[j - 1];
            assert AtLeast(rank(s[0]), rank(s[j - 1]));
          }
        }
      }
    }
  }

  /** `sorted(boxes, key=rank, reverse=True)`: descending by rank, and boxes
      of equal rank keep their input order (Python's sort is stable, also
      when reversed). */
  function SortByRank<B(!new)>(s: seq<B>, rank: B -> Rank): (r: seq<B>)
    ensures multiset(r) == multiset(s)
    ensures |r| == |s|
    ensures SortedDesc(r, rank)
  {
    if s == [] then []
    else
      assert s == [s[0]] + s[1..];
      var t := SortByRank(s[1..], rank);
      InsertSorted(s[0], t, rank);
      Insert(s[0], t, rank)
  }

  /** The elements of rank `k`, in the order they occur. */
  function WithRank<B(!new)>(s: seq<B>, rank: B -> Rank, k: Rank): seq<B>
  {
    if s == [] then []
    else (if rank(s[0]) == k then [s[0]] else []) + WithRank(s[1..], rank, k)
  }

  lemma {:induction false} WithRankInsert<B(!new)>(x: B, s: seq<B>, rank: B -> Rank, k: Rank)
    ensures WithRank(Insert(x, s, rank), rank, k) == (if rank(x) == k then [x] else []) + WithRank(s, rank, k)
    decreases |s|
  {
    if s == [] {
      WithRankCons(x, [], rank, k);
    } else if Above(rank(s[0]), rank(x)) {
      WithRankInsert(x, s[1..], rank, k);
      WithRankInsertBehind(x, s, rank, k);
    } else {
      WithRankCons(x, s, rank, k);
    }
  }

  /** The step of WithRankInsert where `x` goes behind the first box. */
  lemma WithRankInsertBehind<B(!new)>(x: B, s: seq<B>, rank: B -> Rank, k: Rank)
    requires s != [] && Above(rank(s[0]), rank(x))
    requires WithRank(Insert(x, s[1..], rank), rank, k) == (if rank(x) == k then [x] else []) + WithRank(s[1..], rank, k)
    ensures WithRank(Insert(x, s, rank), rank, k) == (if rank(x) == k then [x] else []) + WithRank(s, rank, k)
  {
    var t := Insert(x, s[1..], rank);
    InsertBehind(x, s, rank);
    if rank(s[0]) == k {
      // then x, strictly behind s[0], has another rank
      WithRankConsIn(s[0], t, rank, k);
      WithRankConsIn(s[0], s[1..], rank, k);
      assert WithRank(t, rank, k) == WithRank(s[1..], rank, k);
    } else {
      WithRankConsOut(s[0], t, rank, k);
      WithRankConsOut(s[0], s[1..], rank, k);
    }
  }

  lemma InsertBehind<B(!new)>(x: B, s: seq<B>, rank: B -> Rank)
    requires s != [] && Above(rank(s[0]), rank(x))
    ensures Insert(x, s, rank) == [s[0]] + Insert(x, s[1..], rank)
  {}

  lemma WithRankCons<B(!new)>(y: B, t: seq<B>, rank: B -> Rank, k: Rank)
    ensures WithRank([y] + t, rank, k) == (if rank(y) == k then [y] else []) + WithRank(t, rank, k)
  {
    assert ([y] + t)[1..] == t;
  }

  /** A first box of rank `k` heads the boxes of rank `k`. */
  lemma WithRankConsIn<B(!new)>(y: B, t: seq<B>, rank: B -> Rank, k: Rank)
    requires rank(y) == k
    ensures WithRank([y] + t, rank, k) == [y] + WithRank(t, rank, k)
  {
    WithRankCons(y, t, rank, k);
  }

  /** A first box of another rank is not among the boxes of rank `k`. */
  lemma WithRankConsOut<B(!new)>(y: B, t: seq<B>, rank: B -> Rank, k: Rank)
    requires rank(y) != k
    ensures WithRank([y] + t, rank, k) == WithRank(t, rank, k)
  {
    WithRankCons(y, t, rank, k);
    assert [] + WithRank(t, rank, k) == WithRank(t, rank, k);
  }

  /** Stability: for every rank, the boxes of that rank appear in the sorted
      output exactly as they appear in the input. */
  lemma {:induction false} SortStable<B(!new)>(s: seq<B>, rank: B -> Rank, k: Rank)
    ensures WithRank(SortByRank(s, rank), rank, k) == WithRank(s, rank, k)
    decreases |s|
  {
    if s != [] {
      SortStable(s[1..], rank, k);
      WithRankInsert(s[0], SortByRank(s[1..], rank), rank, k);
    }
  }

  // ---------------------------------------------------------------------
  // The suppression loop
  // ---------------------------------------------------------------------

  /** The boxes of `s` that `head` does not exceed, in order: one round of
      `boxes = [boxes[i] for i ... if i not in remove_idx]`. */
  function Survivors<B(!new)>(head: B, s: seq<B>, exceeds: (B, B) -> bool): (r: seq<B>)
    ensures |r| <= |s|
    ensures forall b :: b in r <==> b in s && !exceeds(head, b)
  {
    if s == [] then []
    else
      assert s == [s[0]] + s[1..];
      (if exceeds(head, s[0]) then [] else [s[0]]) + Survivors(head, s[1..], exceeds)
  }

  lemma {:induction false} SurvivorsSubsequence<B(!new)>(head: B, s: seq<B>, exceeds: (B, B) -> bool)
    ensures IsSubsequence(Survivors(head, s, exceeds), s)
    decreases |s|
  {
    if s != [] {
      var t := Survivors(head, s[1..], exceeds);
      SurvivorsSubsequence(head, s[1..], exceeds);
      if exceeds(head, s[0]) {
        assert Survivors(head, s, exceeds) == t;
      } else {
        assert ([s[0]] + t)[1..] == t;
      }
    }
  }

  /** The `while len(boxes) > 0` loop on an already sorted list: pop the
      front box, keep it, and continue with the boxes it does not exceed. */
  function Suppress<B(!new)>(s: seq<B>, exceeds: (B, B) -> bool): (r: seq<B>)
    ensures |r| <= |s|
    ensures s != [] ==> r != [] && r[0] == s[0]
    ensures forall b :: b in r ==> b in s
    decreases |s|
  {
    if s == [] then []
    else
      var rest := Survivors(s[0], s[1..], exceeds);
      var t := Suppress(rest, exceeds);
      assert forall b :: b in t ==> b in s[1..];
      [s[0]] + t
  }

  lemma {:induction false} SuppressSubsequence<B(!new)>(s: seq<B>, exceeds: (B, B) -> bool)
    ensures IsSubsequence(Suppress(s, exceeds), s)
    decreases |s|
  {
    if s != [] {
      var rest := Survivors(s[0], s[1..], exceeds);
      var t := Suppress(rest, exceeds);
      SuppressSubsequence(rest, exceeds);
      SurvivorsSubsequence(s[0], s[1..], exceeds);
      SubsequenceTransitive(t, rest, s[1..]);
      assert ([s[0]] + t)[1..] == t;
    }
  }

  /** No kept box exceeds a box kept after it. */
  lemma {:induction false} SuppressPairwise<B(!new)>(s: seq<B>, exceeds: (B, B) -> bool)
    ensures forall i, j :: 0 <= i < j < |Suppress(s, exceeds)| ==> !exceeds(Suppress(s, exceeds)[i], Suppress(s, exceeds)[j])
    decreases |s|
  {
    if s != [] {
      var rest := Survivors(s[0], s[1..], exceeds);
      var t := Suppress(rest, exceeds);
      SuppressPairwise(rest, exceeds);
      var r := Suppress(s, exceeds);
      assert r == [s[0]] + t;
      forall i, j | 0 <= i < j < |r| ensures !exceeds(r[i], r[j]) {
        if i == 0 {
          assert r[j] == t[j - 1];
          assert r[j] in rest;
        } else {
          assert r[i] == t[i - 1] && r[j] == t[j - 1];
        }
      }
    }
  }

  /** Every box that is not kept is exceeded by a kept box that ranks at
      least as high. */
  lemma {:induction false} SuppressCovers<B(!new)>(s: seq<B>, exceeds: (B, B) -> bool, rank: B -> Rank)
    requires SortedDesc(s, rank)
    ensures forall b :: b in s && b !in Suppress(s, exceeds) ==>
      exists k :: k in Suppress(s, exceeds) && exceeds(k, b) && AtLeast(rank(k), rank(b))
    decreases |s|
  {
    if s != [] {
      var rest := Survivors(s[0], s[1..], exceeds);
      var t := Suppress(rest, exceeds);
      var r := Suppress(s, exceeds);
      assert r == [s[0]] + t;
      SurvivorsSubsequence(s[0], s[1..], exceeds);
      assert SortedDesc(s[1..], rank);
      SubsequenceSorted(rest, s[1..], rank);
      SuppressCovers(rest, exceeds, rank);
      forall b | b in s && b !in r
        ensures exists k :: k in r && exceeds(k, b) && AtLeast(rank(k), rank(b))
      {
        assert b != s[0];
        assert b in s[1..];
        var j :| 0 <= j < |s[1..]| && s[1..][j] == b;
        assert AtLeast(rank(s[0]), rank(s[j + 1]));
        if exceeds(s[0], b) {
          assert s[0] in r;
        } else {
          assert b in rest;
          var k :| k in t && exceeds(k, b) && AtLeast(rank(k), rank(b));
          assert k in r;
        }
      }
    }
  }

  /** non_max_supression: sort, then run the suppression loop. */
  function NonMaxSuppression<B(!new)>(boxes: seq<B>, rank: B -> Rank, exceeds: (B, B) -> bool): (r: seq<B>)
    ensures |r| <= |boxes|
    ensures boxes == [] <==> r == []
    ensures forall b :: b in r ==> b in boxes
    ensures IsSubsequence(r, SortByRank(boxes, rank))
    ensures SortedDesc(r, rank)
    ensures r != [] ==> forall b :: b in boxes ==> AtLeast(rank(r[0]), rank(b))
    ensures forall i, j :: 0 <= i < j < |r| ==> !exceeds(r[i], r[j])
    ensures forall b :: b in boxes && b !in r ==> exists k :: k in r && exceeds(k, b) && AtLeast(rank(k), rank(b))
  {
    var sorted := SortByRank(boxes, rank);
    assert forall b :: b in boxes <==> b in sorted by {
      forall b ensures b in boxes <==> b in sorted {
        assert b in boxes <==> b in multiset(boxes);
        assert b in sorted <==> b in multiset(sorted);
      }
    }
    SuppressSubsequence(sorted, exceeds);
    SubsequenceSorted(Suppress(sorted, exceeds), sorted, rank);
    SuppressPairwise(sorted, exceeds);
    SuppressCovers(sorted, exceeds, rank);
    assert sorted != [] ==> forall b :: b in sorted ==> AtLeast(rank(sorted[0]), rank(b));
    Suppress(sorted, exceeds)
  }

  // ---------------------------------------------------------------------
  // An independent reference: the greedy scan
  // ---------------------------------------------------------------------

  /** `b` is not exceeded by any box already kept. */
  ghost predicate Clear<B(!new)>(kept: seq<B>, b: B, exceeds: (B, B) -> bool)
  {
    forall k :: k in kept ==> !exceeds(k, b)
  }

  /** Greedy NMS stated from the other side: walk the ranked boxes once and
      keep a box exactly when no box kept before it exceeds it. */
  ghost function GreedyScan<B(!new)>(s: seq<B>, kept: seq<B>, exceeds: (B, B) -> bool): seq<B>
    decreases |s|
  {
    if s == [] then kept
    else if Clear(kept, s[0], exceeds) then GreedyScan(s[1..], kept + [s[0]], exceeds)
    else GreedyScan(s[1..], kept, exceeds)
  }

  /** The boxes of `s` that no box of `kept` exceeds. */
  ghost function Unblocked<B(!new)>(s: seq<B>, kept: seq<B>, exceeds: (B, B) -> bool): seq<B>
  {
    if s == [] then []
    else (if Clear(kept, s[0], exceeds) then [s[0]] else []) + Unblocked(s[1..], kept, exceeds)
  }

  lemma {:induction false} UnblockedExtend<B(!new)>(s: seq<B>, kept: seq<B>, x: B, exceeds: (B, B) -> bool)
    ensures Survivors(x, Unblocked(s, kept, exceeds), exceeds) == Unblocked(s, kept + [x], exceeds)
    decreases |s|
  {
    if s != [] {
      UnblockedExtend(s[1..], kept, x, exceeds);
      assert Clear(kept + [x], s[0], exceeds) <==> Clear(kept, s[0], exceeds) && !exceeds(x, s[0]) by {
        assert forall k :: k in kept + [x] <==> k in kept || k == x;
      }
      var u := Unblocked(s[1..], kept, exceeds);
      if Clear(kept, s[0], exceeds) {
        assert ([s[0]] + u)[1..] == u;
      } else {
        assert Unblocked(s, kept, exceeds) == u;
      }
    }
  }

  lemma {:induction false} UnblockedNothingKept<B(!new)>(s: seq<B>, exceeds: (B, B) -> bool)
    ensures Unblocked(s, [], exceeds) == s
    decreases |s|
  {
    if s != [] {
      UnblockedNothingKept(s[1..], exceeds);
    }
  }

  lemma {:induction false} GreedyScanSplits<B(!new)>(s: seq<B>, kept: seq<B>, exceeds: (B, B) -> bool)
    ensures GreedyScan(s, kept, exceeds) == kept + Suppress(Unblocked(s, kept, exceeds), exceeds)
    decreases |s|
  {
    if s != [] {
      var u := Unblocked(s[1..], kept, exceeds);
      if Clear(kept, s[0], exceeds) {
        GreedyScanSplits(s[1..], kept + [s[0]], exceeds);
        UnblockedExtend(s[1..], kept, s[0], exceeds);
        assert Unblocked(s, kept, exceeds) == [s[0]] + u;
        assert ([s[0]] + u)[1..] == u;
      } else {
        GreedyScanSplits(s[1..], kept, exceeds);
        assert Unblocked(s, kept, exceeds) == u;
      }
    }
  }

  /** The suppression loop keeps exactly what the greedy scan keeps. */
  lemma SuppressIsGreedy<B(!new)>(s: seq<B>, exceeds: (B, B) -> bool)
    ensures Suppress(s, exceeds) == GreedyScan(s, [], exceeds)
  {
    GreedyScanSplits(s, [], exceeds);
    UnblockedNothingKept(s, exceeds);
  }

  // ---------------------------------------------------------------------
  // Transporting suppression along a map
  // ---------------------------------------------------------------------

  function Map<A(!new), B(!new)>(s: seq<A>, f: A -> B): (r: seq<B>)
    ensures |r| == |s|
    ensures forall i :: 0 <= i < |s| ==> r[i] == f(s[i])
  {
    if s == [] then [] else [f(s[0])] + Map(s[1..], f)
  }

  /** `f` neither swaps nor separates nor merges boxes in the rank order. */
  ghost predicate KeepsOrder<A(!new), B(!new)>(f: A -> B, rankA: A -> Rank, rankB: B -> Rank)
  {
    forall a1, a2 :: Above(rankB(f(a1)), rankB(f(a2))) <==> Above(rankA(a1), rankA(a2))
  }

  /** `f` does not change which box exceeds which. */
  ghost predicate KeepsExceeds<A(!new), B(!new)>(f: A -> B, exA: (A, A) -> bool, exB: (B, B) -> bool)
  {
    forall a1, a2 :: exB(f(a1), f(a2)) == exA(a1, a2)
  }

  lemma {:induction false} InsertMap<A(!new), B(!new)>(x: A, s: seq<A>, f: A -> B, rankA: A -> Rank, rankB: B -> Rank)
    requires KeepsOrder(f, rankA, rankB)
    ensures Insert(f(x), Map(s, f), rankB) == Map(Insert(x, s, rankA), f)
    decreases |s|
  {
    if s != [] {
      assert Map(s, f)[1..] == Map(s[1..], f);
      InsertMap(x, s[1..], f, rankA, rankB);
    }
  }

  lemma {:induction false} SortMap<A(!new), B(!new)>(s: seq<A>, f: A -> B, rankA: A -> Rank, rankB: B -> Rank)
    requires KeepsOrder(f, rankA, rankB)
    ensures SortByRank(Map(s, f), rankB) == Map(SortByRank(s, rankA), f)
    decreases |s|
  {
    if s != [] {
      assert Map(s, f)[1..] == Map(s[1..], f);
      SortMap(s[1..], f, rankA, rankB);
      InsertMap(s[0], SortByRank(s[1..], rankA), f, rankA, rankB);
    }
  }

  lemma {:induction false} SurvivorsMap<A(!new), B(!new)>(h: A, s: seq<A>, f: A -> B, exA: (A, A) -> bool, exB: (B, B) -> bool)
    requires KeepsExceeds(f, exA, exB)
    ensures Survivors(f(h), Map(s, f), exB) == Map(Survivors(h, s, exA), f)
    decreases |s|
  {
    if s != [] {
      assert Map(s, f)[1..] == Map(s[1..], f);
      SurvivorsMap(h, s[1..], f, exA, exB);
    }
  }

  lemma {:induction false} SuppressMap<A(!new), B(!new)>(s: seq<A>, f: A -> B, exA: (A, A) -> bool, exB: (B, B) -> bool)
    requires KeepsExceeds(f, exA, exB)
    ensures Suppress(Map(s, f), exB) == Map(Suppress(s, exA), f)
    decreases |s|
  {
    if s != [] {
      assert Map(s, f)[1..] == Map(s[1..], f);
      var rest := Survivors(s[0], s[1..], exA);
      SurvivorsMap(s[0], s[1..], f, exA, exB);
      SuppressMap(rest, f, exA, exB);
    }
  }

  /** Mapping every box first and suppressing afterwards gives the same
      result as suppressing first, when the map keeps the rank order and the
      overlap test. */
  lemma NmsCommutesWithMap<A(!new), B(!new)>(s: seq<A>, f: A -> B, rankA: A -> Rank, rankB: B -> Rank,
                                 exA: (A, A) -> bool, exB: (B, B) -> bool)
    requires KeepsOrder(f, rankA, rankB)
    requires KeepsExceeds(f, exA, exB)
    ensures NonMaxSuppression(Map(s, f), rankB, exB) == Map(NonMaxSuppression(s, rankA, exA), f)
  {
    SortMap(s, f, rankA, rankB);
    SuppressMap(SortByRank(s, rankA), f, exA, exB);
  }
}
