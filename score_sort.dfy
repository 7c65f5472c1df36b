/**
 * The ordering step of the search: `scoredList.sort((x, y) => x.score - y.score)`.
 * `Array.prototype.sort` is stable, so entries with equal scores keep the order
 * in which they were pushed. `StableSort` is the reference definition (insertion
 * from the right, one entry at a time); `SortedTiesUnique` shows that any
 * arrangement that is ascending by score and keeps every tie group in its original
 * order IS that result, so the model does not depend on which stable algorithm
 * the JavaScript engine runs. `SortByScore` sorts an array in place and is proved
 * to produce exactly `StableSort` of its old contents.
 */
module ScoreSort {
  import opened FlightTypes

  /** Non-decreasing by score. */
  predicate Sorted(s: seq<ScoredFlight>)
  {
    forall i, j :: 0 <= i < j < |s| ==> s[i].score <= s[j].score
  }

  /** The entries of `s` whose score is `v`, in the order they occur in `s`. */
  function WithScore(s: seq<ScoredFlight>, v: real): seq<ScoredFlight>
  {
    if s == [] then []
    else WithScore(s[..|s| - 1], v) + (if s[|s| - 1].score == v then [s[|s| - 1]] else [])
  }

  /** `t` and `s` hold the same tie groups: for every score, the same entries in the same order. */
  ghost predicate SameTies(t: seq<ScoredFlight>, s: seq<ScoredFlight>)
  {
    forall v :: WithScore(t, v) == WithScore(s, v)
  }

  /** Inserts `x` into `s` after every trailing entry whose score is not greater than `x`'s. */
  function Insert(s: seq<ScoredFlight>, x: ScoredFlight): (r: seq<ScoredFlight>)
    ensures |r| == |s| + 1
    decreases |s|
  {
    if s == [] || s[|s| - 1].score <= x.score then s + [x]
    else Insert(s[..|s| - 1], x) + [s[|s| - 1]]
  }

  /** The stable ascending sort by score of `s`. */
  function StableSort(s: seq<ScoredFlight>): (r: seq<ScoredFlight>)
    ensures |r| == |s|
  {
    if s == [] then [] else Insert(StableSort(s[..|s| - 1]), s[|s| - 1])
  }

  lemma WithScoreSnoc(s: seq<ScoredFlight>, x: ScoredFlight, v: real)
    ensures WithScore(s + [x], v) == WithScore(s, v) + (if x.score == v then [x] else [])
  {
    assert (s + [x])[..|s|] == s;
  }

  /** Every entry picked out by `WithScore` comes from `s` and has the score asked for. */
  lemma {:induction false} WithScoreMember(s: seq<ScoredFlight>, v: real, y: ScoredFlight)
    requires y in WithScore(s, v)
    ensures y in s && y.score == v
    decreases |s|
  {
    if y !in WithScore(s[..|s| - 1], v) {
      assert y == s[|s| - 1];
    } else {
      WithScoreMember(s[..|s| - 1], v, y);
    }
  }

  lemma LastHasTie(s: seq<ScoredFlight>)
    requires s != []
    ensures s[|s| - 1] in WithScore(s, s[|s| - 1].score)
  {
  }

  lemma EmptyTies(t: seq<ScoredFlight>, u: seq<ScoredFlight>)
    requires SameTies(t, u)
    ensures t == [] <==> u == []
  {
    if t != [] {
      LastHasTie(t);
      assert WithScore(u, t[|t| - 1].score) != [];
    }
    if u != [] {
      LastHasTie(u);
      assert WithScore(t, u[|u| - 1].score) != [];
    }
  }

  /** Inserting keeps exactly the old entries plus `x`. */
  lemma {:induction false} InsertPermutation(s: seq<ScoredFlight>, x: ScoredFlight)
    ensures multiset(Insert(s, x)) == multiset(s) + multiset{x}
    decreases |s|
  {
    if s == [] || s[|s| - 1].score <= x.score {
    } else {
      var init := s[..|s| - 1];
      InsertPermutation(init, x);
      assert s == init + [s[|s| - 1]];
    }
  }

  /** Inserting into an ascending sequence leaves it ascending. */
  lemma {:induction false} InsertSorted(s: seq<ScoredFlight>, x: ScoredFlight)
    requires Sorted(s)
    ensures Sorted(Insert(s, x))
    decreases |s|
  {
    if s == [] || s[|s| - 1].score <= x.score {
    } else {
      var init, last := s[..|s| - 1], s[|s| - 1];
      InsertSorted(init, x);
      InsertPermutation(init, x);
      var r := Insert(init, x);
      forall y | y in r ensures y.score <= last.score {
        assert y in multiset(init) + multiset{x};
        if y != x {
          var i :| 0 <= i < |init| && init[i] == y;
          assert s[i] == y;
        }
      }
    }
  }

  /** Inserting `x` appends it to its own tie group and leaves every other group alone. */
  lemma {:induction false} InsertTies(s: seq<ScoredFlight>, x: ScoredFlight, v: real)
    ensures WithScore(Insert(s, x), v) == WithScore(s, v) + (if x.score == v then [x] else [])
    decreases |s|
  {
    if s == [] || s[|s| - 1].score <= x.score {
      WithScoreSnoc(s, x, v);
    } else {
      var init, last := s[..|s| - 1], s[|s| - 1];
      InsertTies(init, x, v);
      WithScoreSnoc(Insert(init, x), last, v);
      WithScoreSnoc(init, last, v);
      assert s == init + [last];
    }
  }

  /** Where `x` lands when the entries from `j` on all score above it and the one before does not. */
  lemma {:induction false} InsertAt(s: seq<ScoredFlight>, x: ScoredFlight, j: nat)
    requires j <= |s|
    requires forall k :: j <= k < |s| ==> s[k].score > x.score
    requires 0 < j ==> s[j - 1].score <= x.score
    ensures Insert(s, x) == s[..j] + [x] + s[j..]
    decreases |s|
  {
    if j == |s| {
      assert s[..j] == s && s[j..] == [];
    } else {
      var init := s[..|s| - 1];
      InsertAt(init, x, j);
      assert init[..j] == s[..j];
      assert init[j..] + [s[|s| - 1]] == s[j..];
    }
  }

  /** The sorted list is a permutation of the input. */
  lemma {:induction false} StableSortPermutation(s: seq<ScoredFlight>)
    ensures multiset(StableSort(s)) == multiset(s)
  {
    if s != [] {
      var init := s[..|s| - 1];
      StableSortPermutation(init);
      InsertPermutation(StableSort(init), s[|s| - 1]);
      assert s == init + [s[|s| - 1]];
    }
  }

  /** The sorted list is ascending by score. */
  lemma {:induction false} StableSortSorted(s: seq<ScoredFlight>)
    ensures Sorted(StableSort(s))
  {
    if s != [] {
      StableSortSorted(s[..|s| - 1]);
      InsertSorted(StableSort(s[..|s| - 1]), s[|s| - 1]);
    }
  }

  /** Stability: every tie group of the sorted list is the tie group of the input, in input order. */
  lemma {:induction false} StableSortTies(s: seq<ScoredFlight>)
    ensures SameTies(StableSort(s), s)
  {
    if s != [] {
      var init, last := s[..|s| - 1], s[|s| - 1];
      StableSortTies(init);
      forall v ensures WithScore(StableSort(s), v) == WithScore(s, v) {
        InsertTies(StableSort(init), last, v);
        WithScoreSnoc(init, last, v);
        assert s == init + [last];
      }
    }
  }

  /** In an ascending list no entry scores above the last one. */
  lemma LastIsMax(s: seq<ScoredFlight>, y: ScoredFlight)
    requires Sorted(s) && y in s
    ensures y.score <= s[|s| - 1].score
  {
    var i :| 0 <= i < |s| && s[i] == y;
  }

  /** Two ascending lists whose tie groups agree on both last scores end in the same entry. */
  lemma SameLast(t: seq<ScoredFlight>, u: seq<ScoredFlight>)
    requires t != [] && u != []
    requires Sorted(t) && Sorted(u)
    requires WithScore(t, t[|t| - 1].score) == WithScore(u, t[|t| - 1].score)
    requires WithScore(t, u[|u| - 1].score) == WithScore(u, u[|u| - 1].score)
    ensures t[|t| - 1] == u[|u| - 1]
  {
    var tl, ul := t[|t| - 1], u[|u| - 1];
    LastHasTie(t);
    WithScoreMember(u, tl.score, tl);
    LastIsMax(u, tl);
    LastHasTie(u);
    WithScoreMember(t, ul.score, ul);
    LastIsMax(t, ul);
    var m := tl.score;
    assert ul.score == m;
    var w := WithScore(t, m);
    assert w == WithScore(t[..|t| - 1], m) + [tl];
    assert w == WithScore(u[..|u| - 1], m) + [ul];
    assert w[|w| - 1] == tl && w[|w| - 1] == ul;
  }

  /** Dropping a common last entry keeps the tie groups equal. */
  lemma DropLastTies(t: seq<ScoredFlight>, u: seq<ScoredFlight>)
    requires t != [] && u != [] && t[|t| - 1] == u[|u| - 1]
    requires SameTies(t, u)
    ensures SameTies(t[..|t| - 1], u[..|u| - 1])
  {
    var ti, ui, last := t[..|t| - 1], u[..|u| - 1], t[|t| - 1];
    assert t == ti + [last] && u == ui + [last];
    forall v ensures WithScore(ti, v) == WithScore(ui, v) {
      WithScoreSnoc(ti, last, v);
      WithScoreSnoc(ui, last, v);
      var tv, uv, extra := WithScore(ti, v), WithScore(ui, v), if last.score == v then [last] else [];
      assert WithScore(t, v) == WithScore(u, v);
      assert tv + extra == uv + extra;
      assert (tv + extra)[..|tv|] == tv && (uv + extra)[..|uv|] == uv;
    }
  }

  /** Two ascending lists with the same tie groups are equal. */
  lemma {:induction false} SortedTiesUnique(t: seq<ScoredFlight>, u: seq<ScoredFlight>)
    requires Sorted(t) && Sorted(u) && SameTies(t, u)
    ensures t == u
    decreases |t|
  {
    EmptyTies(t, u);
    if t != [] {
      assert WithScore(t, t[|t| - 1].score) == WithScore(u, t[|t| - 1].score);
      assert WithScore(t, u[|u| - 1].score) == WithScore(u, u[|u| - 1].score);
      SameLast(t, u);
      DropLastTies(t, u);
      var ti, ui := t[..|t| - 1], u[..|u| - 1];
      assert Sorted(ti) && Sorted(ui);
      SortedTiesUnique(ti, ui);
      assert t == ti + [t[|t| - 1]] && u == ui + [u[|u| - 1]];
    }
  }

  /** Any ascending arrangement of `s` that keeps each tie group in order is `StableSort(s)`. */
  lemma StableSortUnique(s: seq<ScoredFlight>, t: seq<ScoredFlight>)
    requires Sorted(t) && SameTies(t, s)
    ensures t == StableSort(s)
  {
    StableSortSorted(s);
    StableSortTies(s);
    SortedTiesUnique(t, StableSort(s));
  }

  /** Sorting one more entry of `s` inserts it into the sorted shorter prefix. */
  lemma StableSortStep(s: seq<ScoredFlight>, i: nat)
    requires i < |s|
    ensures StableSort(s[..i + 1]) == Insert(StableSort(s[..i]), s[i])
  {
    assert s[..i + 1][..i] == s[..i];
  }

  /** Moves the first entry of `tail`, which follows the sorted prefix, left past the entries that score above it. */
  method InsertInto(a: array<ScoredFlight>, i: nat, ghost sorted: seq<ScoredFlight>, ghost tail: seq<ScoredFlight>)
    requires |sorted| == i && tail != [] && a[..] == sorted + tail
    modifies a
    ensures a[..] == Insert(sorted, tail[0]) + tail[1..]
  {
    ghost var rest := tail[1..];
    var x := a[i];
    assert x == tail[0];
    var j := i;
    while 0 < j && a[j - 1].score > x.score
      invariant 0 <= j <= i
      invariant forall k :: 0 <= k < j ==> a[k] == sorted[k]
      invariant forall k :: j < k <= i ==> a[k] == sorted[k - 1]
      invariant forall k :: j <= k < i ==> sorted[k].score > x.score
      invariant forall k :: i < k < a.Length ==> a[k] == rest[k - i - 1]
    {
      a[j] := a[j - 1];
      j := j - 1;
    }
    a[j] := x;
    InsertAt(sorted, x, j);
    assert a[..] == sorted[..j] + [x] + sorted[j..] + rest;
  }

  /** One round of the insertion sort: the sorted prefix grows by the next entry. */
  method SortStep(a: array<ScoredFlight>, i: nat, ghost s: seq<ScoredFlight>)
    requires i < a.Length == |s| && a[..] == StableSort(s[..i]) + s[i..]
    modifies a
    ensures a[..] == StableSort(s[..i + 1]) + s[i + 1..]
  {
    StableSortStep(s, i);
    InsertInto(a, i, StableSort(s[..i]), s[i..]);
    assert s[i..][0] == s[i] && s[i..][1..] == s[i + 1..];
  }

  /** Sorts `a` in place, ascending by score, keeping equal scores in their original order. */
  method SortByScore(a: array<ScoredFlight>)
    modifies a
    ensures a[..] == StableSort(old(a[..]))
  {
    ghost var s := a[..];
    var i := 0;
    while i < a.Length
      invariant 0 <= i <= a.Length
      invariant a[..] == StableSort(s[..i]) + s[i..]
    {
      SortStep(a, i, s);
      i := i + 1;
    }
    assert s[..a.Length] == s && s[a.Length..] == [];
  }
}
