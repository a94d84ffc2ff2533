/** List operations the simulator performs on Python lists: `remove` (first occurrence) and
 *  the walk `for x in xs: ... xs.remove(x)`, whose iteration index keeps advancing after a
 *  removal and so never looks at the element that slides into the removed slot. */
module Lists {

  predicate Distinct<T(==)>(s: seq<T>)
  {
    forall i, j :: 0 <= i < j < |s| ==> s[i] != s[j]
  }

  /** `list.remove(e)`: drop the first occurrence of `e`. */
  function RemoveFirst<T(==)>(s: seq<T>, e: T): (r: seq<T>)
    ensures e in s ==> |r| == |s| - 1
    ensures e !in s ==> r == s
  {
    if |s| == 0 then []
    else if s[0] == e then s[1..]
    else [s[0]] + RemoveFirst(s[1..], e)
  }

  /** The first occurrence is the one removed: everything before it and after it stays,
   *  in order. */
  lemma RemoveFirstSplits<T>(s: seq<T>, e: T)
    requires e in s
    ensures exists i :: 0 <= i < |s| && s[i] == e && e !in s[..i] && RemoveFirst(s, e) == s[..i] + s[i + 1..]
  {
    var i := FirstIndex(s, e);
    RemoveFirstAt(s, i);
  }

  /** Where `e` first occurs in `s`. */
  function FirstIndex<T(==)>(s: seq<T>, e: T): (i: nat)
    requires e in s
    ensures i < |s| && s[i] == e && e !in s[..i]
  {
    if s[0] == e then 0
    else
      var k := FirstIndex(s[1..], e);
      assert s[..k + 1] == [s[0]] + s[1..][..k];
      k + 1
  }

  /** When the first occurrence is at `i`, removing it closes the gap at `i`. */
  lemma {:induction false} RemoveFirstAt<T>(s: seq<T>, i: nat)
    requires i < |s| && s[i] !in s[..i]
    ensures RemoveFirst(s, s[i]) == s[..i] + s[i + 1..]
  {
    if i > 0 {
      assert s[1..][..i - 1] == s[..i][1..];
      RemoveFirstAt(s[1..], i - 1);
      assert s[..i] == [s[0]] + s[1..][..i - 1];
    }
  }

  /** Removing invents nothing. */
  lemma {:induction false} RemoveFirstKeeps<T>(s: seq<T>, e: T)
    ensures forall x :: x in RemoveFirst(s, e) ==> x in s
  {
    if |s| > 0 && s[0] != e {
      RemoveFirstKeeps(s[1..], e);
    }
  }

  /** Removing `e` keeps every other element. */
  lemma {:induction false} RemoveFirstOthers<T>(s: seq<T>, e: T, x: T)
    requires x in s && x != e
    ensures x in RemoveFirst(s, e)
  {
    if s[0] != e && x != s[0] {
      RemoveFirstOthers(s[1..], e, x);
    }
  }

  lemma {:induction false} RemoveFirstMultiset<T>(s: seq<T>, e: T)
    requires e in s
    ensures multiset(RemoveFirst(s, e)) == multiset(s) - multiset{e}
  {
    if s[0] != e {
      RemoveFirstMultiset(s[1..], e);
      assert s == [s[0]] + s[1..];
    } else {
      assert s == [s[0]] + s[1..];
    }
  }

  /** Removing keeps a list without repeats without repeats. */
  lemma {:induction false} RemoveFirstDistinct<T>(s: seq<T>, e: T)
    requires Distinct(s)
    ensures Distinct(RemoveFirst(s, e))
  {
    if |s| > 0 && s[0] != e {
      RemoveFirstDistinct(s[1..], e);
      RemoveFirstKeeps(s[1..], e);
      var r := RemoveFirst(s[1..], e);
      assert s[0] !in s[1..];
      forall a, b | 0 <= a < b < |[s[0]] + r| ensures ([s[0]] + r)[a] != ([s[0]] + r)[b] {
        if a == 0 {
          assert ([s[0]] + r)[b] == r[b - 1] && r[b - 1] in s[1..];
        }
      }
    }
  }

  /** Appending an element that was not there and then removing it gives the list back. */
  lemma {:induction false} AppendThenRemove<T>(s: seq<T>, e: T)
    requires e !in s
    ensures RemoveFirst(s + [e], e) == s
  {
    if |s| > 0 {
      assert (s + [e])[1..] == s[1..] + [e];
      AppendThenRemove(s[1..], e);
    }
  }

  /** If `e` was already present, appending it and removing it takes out the earlier copy. */
  lemma AppendThenRemoveDuplicate()
    ensures RemoveFirst([1, 2] + [1], 1) == [2, 1]
  {
    assert ([1, 2] + [1])[1..] == [2, 1];
  }

  // ---------------------------------------------------------------------------
  // The skipping walk. `gone[k]` says whether the walk removes `s[k]` when it looks at it.

  /** What is left of `s[j..]` after the walk: an element the walk removes takes its
   *  successor's turn, so that successor is kept without being looked at. */
  function Survivors<T>(s: seq<T>, gone: seq<bool>, j: nat): (r: seq<T>)
    requires |gone| == |s|
    ensures |r| <= |s| - j || j > |s|
    decreases |s| - j
  {
    if j >= |s| then []
    else if gone[j] then (if j + 1 < |s| then [s[j + 1]] + Survivors(s, gone, j + 2) else [])
    else [s[j]] + Survivors(s, gone, j + 1)
  }

  /** The elements of `s[j..]` the walk removes, in the order it removes them. */
  function Removed<T>(s: seq<T>, gone: seq<bool>, j: nat): (r: seq<T>)
    requires |gone| == |s|
    decreases |s| - j
  {
    if j >= |s| then []
    else if gone[j] then [s[j]] + (if j + 1 < |s| then Removed(s, gone, j + 2) else [])
    else Removed(s, gone, j + 1)
  }

  /** The elements `Filter` keeps: those not marked. */
  function Unmarked<T>(s: seq<T>, gone: seq<bool>, j: nat): (r: seq<T>)
    requires |gone| == |s|
    decreases |s| - j
  {
    if j >= |s| then [] else (if gone[j] then [] else [s[j]]) + Unmarked(s, gone, j + 1)
  }

  /** Nothing is lost or invented: the survivors and the removed elements together are
   *  exactly the original elements. */
  lemma {:induction false} WalkPartitions<T>(s: seq<T>, gone: seq<bool>, j: nat)
    requires |gone| == |s| && j <= |s|
    ensures multiset(Survivors(s, gone, j)) + multiset(Removed(s, gone, j)) == multiset(s[j..])
    decreases |s| - j
  {
    if j < |s| {
      if gone[j] && j + 1 < |s| {
        WalkPartitions(s, gone, j + 2);
        PairStep(s, gone, j);
      } else if gone[j] {
        assert s[j..] == [s[j]];
      } else {
        WalkPartitions(s, gone, j + 1);
        assert s[j..] == [s[j]] + s[j + 1..];
      }
    }
  }

  /** The walk only keeps or removes elements of the original list. */
  lemma WalkDrawsFrom<T>(s: seq<T>, gone: seq<bool>)
    requires |gone| == |s|
    ensures forall x :: x in Survivors(s, gone, 0) ==> x in s
    ensures forall x :: x in Removed(s, gone, 0) ==> x in s
  {
    WalkPartitions(s, gone, 0);
    assert s[0..] == s;
    forall x | x in Survivors(s, gone, 0) ensures x in s {
      assert multiset(Survivors(s, gone, 0))[x] > 0;
      assert multiset(s)[x] > 0;
    }
    forall x | x in Removed(s, gone, 0) ensures x in s {
      assert multiset(Removed(s, gone, 0))[x] > 0;
      assert multiset(s)[x] > 0;
    }
  }

  lemma PairStep<T>(s: seq<T>, gone: seq<bool>, j: nat)
    requires |gone| == |s| && j + 1 < |s| && gone[j]
    requires multiset(Survivors(s, gone, j + 2)) + multiset(Removed(s, gone, j + 2)) == multiset(s[j + 2..])
    ensures multiset(Survivors(s, gone, j)) + multiset(Removed(s, gone, j)) == multiset(s[j..])
  {
    var a, b := Survivors(s, gone, j + 2), Removed(s, gone, j + 2);
    assert Survivors(s, gone, j) == [s[j + 1]] + a;
    assert Removed(s, gone, j) == [s[j]] + b;
    assert s[j..] == [s[j]] + [s[j + 1]] + s[j + 2..];
  }

  /** Every removed element was marked when the walk looked at it. */
  lemma {:induction false} RemovedAreMarked<T>(s: seq<T>, gone: seq<bool>, j: nat, x: T)
    requires |gone| == |s|
    requires x in Removed(s, gone, j)
    ensures exists k :: j <= k < |s| && s[k] == x && gone[k]
    decreases |s| - j
  {
    if j < |s| {
      if gone[j] {
        if x != s[j] {
          RemovedAreMarked(s, gone, j + 2, x);
        }
      } else {
        RemovedAreMarked(s, gone, j + 1, x);
      }
    }
  }

  /** When no two marked elements are adjacent, nothing is skipped and the walk is an
   *  ordinary filter. */
  lemma {:induction false} WalkWithoutAdjacentMarks<T>(s: seq<T>, gone: seq<bool>, j: nat)
    requires |gone| == |s|
    requires forall k :: 0 <= k < |s| - 1 && gone[k] ==> !gone[k + 1]
    ensures Survivors(s, gone, j) == Unmarked(s, gone, j)
    decreases |s| - j
  {
    if j < |s| {
      if gone[j] {
        if j + 1 < |s| {
          WalkWithoutAdjacentMarks(s, gone, j + 2);
          assert !gone[j + 1];
          assert Survivors(s, gone, j) == [s[j + 1]] + Survivors(s, gone, j + 2);
          assert Unmarked(s, gone, j + 1) == [s[j + 1]] + Unmarked(s, gone, j + 2);
          assert Unmarked(s, gone, j) == [] + Unmarked(s, gone, j + 1);
        } else {
          assert Unmarked(s, gone, j + 1) == [];
        }
      } else {
        WalkWithoutAdjacentMarks(s, gone, j + 1);
        assert Unmarked(s, gone, j) == [s[j]] + Unmarked(s, gone, j + 1);
      }
    }
  }

  /** The walk never removes an unmarked element: whether looked at or passed over, it is
   *  kept. */
  lemma {:induction false} UnmarkedSurvive<T>(s: seq<T>, gone: seq<bool>, j: nat, k: nat)
    requires |gone| == |s| && j <= k < |s| && !gone[k]
    ensures s[k] in Survivors(s, gone, j)
    decreases |s| - j
  {
    if j < k {
      if gone[j] {
        if j + 1 < k {
          UnmarkedSurvive(s, gone, j + 2, k);
        }
      } else {
        UnmarkedSurvive(s, gone, j + 1, k);
      }
    }
  }

  /** Every element the ordinary filter keeps is unmarked. */
  lemma {:induction false} UnmarkedAreUnmarked<T>(s: seq<T>, gone: seq<bool>, j: nat, x: T)
    requires |gone| == |s| && x in Unmarked(s, gone, j)
    ensures exists k :: j <= k < |s| && s[k] == x && !gone[k]
    decreases |s| - j
  {
    if j < |s| {
      if !gone[j] && x == s[j] {
      } else {
        assert x in Unmarked(s, gone, j + 1);
        UnmarkedAreUnmarked(s, gone, j + 1, x);
      }
    }
  }

  /** Two adjacent marked elements: the second one survives, unexamined. */
  lemma WalkSkipsSuccessor()
    ensures Survivors([1, 2, 3], [true, true, false], 0) == [2, 3]
    ensures Removed([1, 2, 3], [true, true, false], 0) == [1]
  {
    assert Survivors([1, 2, 3], [true, true, false], 2) == [3];
    assert Removed([1, 2, 3], [true, true, false], 2) == [];
  }

  // ---------------------------------------------------------------------------
  // The minimum scans `best = inf; for x in xs: if cost(x) < best: ...`.

  /** The first of `ns[..n]` with the smallest cost: the scan replaces its choice only on a
   *  strictly smaller cost. */
  function FirstCheapest<T>(ns: seq<T>, cost: T -> real, n: nat): (k: nat)
    requires 0 < n <= |ns|
    ensures k < n
  {
    if n == 1 then 0
    else
      var k := FirstCheapest(ns, cost, n - 1);
      if cost(ns[n - 1]) < cost(ns[k]) then n - 1 else k
  }

  lemma {:induction false} FirstCheapestIsFirstMinimum<T>(ns: seq<T>, cost: T -> real, n: nat)
    requires 0 < n <= |ns|
    ensures var k := FirstCheapest(ns, cost, n);
            (forall j :: 0 <= j < n ==> cost(ns[k]) <= cost(ns[j]))
            && (forall j :: 0 <= j < k ==> cost(ns[k]) < cost(ns[j]))
  {
    if n > 1 {
      FirstCheapestIsFirstMinimum(ns, cost, n - 1);
    }
  }

  // ---------------------------------------------------------------------------
  // The walk, step by step: `tasks` is the live list, `i` the walk's index into it, `j` the
  // position in the original list `s` of the element at `i`, `done` what it removed so far.

  ghost predicate WalkAt<T>(s: seq<T>, gone: seq<bool>, live: seq<T>, i: nat, j: nat, done: seq<T>)
    requires |gone| == |s|
  {
    && j <= |s| && i <= |live| && live[i..] == s[j..]
    && Survivors(s, gone, 0) == live[..i] + Survivors(s, gone, j)
    && Removed(s, gone, 0) == done + Removed(s, gone, j)
    && multiset(live[..i]) <= multiset(s[..j])
  }

  lemma WalkStarts<T>(s: seq<T>, gone: seq<bool>)
    requires |gone| == |s|
    ensures WalkAt(s, gone, s, 0, 0, [])
  {
  }

  /** The element the walk looks at is the next one of the original list. */
  lemma WalkLooksAt<T>(s: seq<T>, gone: seq<bool>, live: seq<T>, i: nat, j: nat, done: seq<T>)
    requires |gone| == |s| && WalkAt(s, gone, live, i, j, done) && i < |live|
    ensures j < |s| && live[i] == s[j]
  {
    assert live[i..][0] == live[i];
  }

  /** Looking at an unmarked element keeps it and moves on. */
  lemma WalkKeeps<T>(s: seq<T>, gone: seq<bool>, live: seq<T>, i: nat, j: nat, done: seq<T>)
    requires |gone| == |s| && WalkAt(s, gone, live, i, j, done) && i < |live| && !gone[j]
    ensures j < |s| && live[i] == s[j] && WalkAt(s, gone, live, i + 1, j + 1, done)
  {
    assert live[i..] == [live[i]] + live[i + 1..];
    assert s[j..] == [s[j]] + s[j + 1..];
    assert live[..i + 1] == live[..i] + [s[j]];
    assert s[..j + 1] == s[..j] + [s[j]];
  }

  /** Removing a marked element (its first occurrence, which is the one the walk looks at when
   *  nothing repeats) and advancing the index passes over its successor. */
  lemma WalkRemoves<T>(s: seq<T>, gone: seq<bool>, live: seq<T>, i: nat, j: nat, done: seq<T>)
    requires |gone| == |s| && Distinct(s) && WalkAt(s, gone, live, i, j, done) && i < |live| && gone[j]
    ensures j < |s| && live[i] == s[j]
    ensures var after := RemoveFirst(live, s[j]);
            WalkAt(s, gone, after, if i < |after| then i + 1 else i, if j + 1 < |s| then j + 2 else j + 1,
                   done + [s[j]])
  {
    WalkLooksAt(s, gone, live, i, j, done);
    WalkNotSeen(s, gone, live, i, j, done);
    RemoveFirstAt(live, i);
    if j + 1 < |s| {
      WalkRemovesPair(s, gone, live, i, j, done);
    } else {
      WalkRemovesLast(s, gone, live, i, j, done);
    }
  }

  /** With nothing repeated, the element the walk looks at is not among those it kept. */
  lemma WalkNotSeen<T>(s: seq<T>, gone: seq<bool>, live: seq<T>, i: nat, j: nat, done: seq<T>)
    requires |gone| == |s| && Distinct(s) && WalkAt(s, gone, live, i, j, done) && j < |s|
    ensures s[j] !in live[..i]
  {
    assert s[j] !in s[..j];
    assert multiset(s[..j])[s[j]] == 0;
    assert multiset(live[..i])[s[j]] == 0;
  }

  /** Removing a marked element that has a successor: the successor is kept unseen. */
  lemma WalkRemovesPair<T>(s: seq<T>, gone: seq<bool>, live: seq<T>, i: nat, j: nat, done: seq<T>)
    requires |gone| == |s| && WalkAt(s, gone, live, i, j, done) && i < |live| && j + 1 < |s| && gone[j]
    requires live[i] == s[j] && RemoveFirst(live, s[j]) == live[..i] + live[i + 1..]
    ensures WalkAt(s, gone, RemoveFirst(live, s[j]), i + 1, j + 2, done + [s[j]])
  {
    var after := live[..i] + live[i + 1..];
    PairFront(s, live, after, i, j);
    PairSeen(s, live, i, j);
    PairUnfolds(s, gone, j);
    ConcatAssoc(live[..i], [s[j + 1]], Survivors(s, gone, j + 2));
    ConcatAssoc(done, [s[j]], Removed(s, gone, j + 2));
  }

  lemma ConcatAssoc<T>(a: seq<T>, b: seq<T>, c: seq<T>)
    ensures a + (b + c) == (a + b) + c
  {
  }

  /** A marked element with a successor: the successor survives, the element is removed, and
   *  the walk resumes two places on. */
  lemma PairUnfolds<T>(s: seq<T>, gone: seq<bool>, j: nat)
    requires |gone| == |s| && j + 1 < |s| && gone[j]
    ensures Survivors(s, gone, j) == [s[j + 1]] + Survivors(s, gone, j + 2)
    ensures Removed(s, gone, j) == [s[j]] + Removed(s, gone, j + 2)
  {
  }

  /** Closing the gap at `i` brings the successor of `s[j]` to slot `i`. */
  lemma PairFront<T>(s: seq<T>, live: seq<T>, after: seq<T>, i: nat, j: nat)
    requires i < |live| && j + 1 < |s| && live[i..] == s[j..] && after == live[..i] + live[i + 1..]
    ensures i + 1 <= |after| && after[..i + 1] == live[..i] + [s[j + 1]] && after[i + 1..] == s[j + 2..]
  {
    assert live[i..] == [live[i]] + live[i + 1..];
    assert s[j..] == [s[j]] + s[j + 1..];
    assert live[i + 1..] == s[j + 1..];
    assert live[i + 1..] == [s[j + 1]] + s[j + 2..];
  }

  /** Keeping the successor unseen keeps everything kept within the part of `s` passed. */
  lemma PairSeen<T>(s: seq<T>, live: seq<T>, i: nat, j: nat)
    requires i <= |live| && j + 1 < |s| && multiset(live[..i]) <= multiset(s[..j])
    ensures multiset(live[..i] + [s[j + 1]]) <= multiset(s[..j + 2])
  {
    assert s[..j + 2] == s[..j] + [s[j], s[j + 1]];
  }

  /** Removing a marked last element ends the walk. */
  lemma WalkRemovesLast<T>(s: seq<T>, gone: seq<bool>, live: seq<T>, i: nat, j: nat, done: seq<T>)
    requires |gone| == |s| && WalkAt(s, gone, live, i, j, done) && i < |live| && j + 1 == |s| && gone[j]
    requires live[i] == s[j] && RemoveFirst(live, s[j]) == live[..i] + live[i + 1..]
    ensures WalkAt(s, gone, RemoveFirst(live, s[j]), i, j + 1, done + [s[j]])
  {
    assert live[i..] == [live[i]] + live[i + 1..];
    assert live[i + 1..] == [];
    assert live[..i] + live[i + 1..] == live[..i];
    assert s[..j + 1] == s[..j] + [s[j]];
  }

  /** When the index runs off the live list the walk is over. */
  lemma WalkEnds<T>(s: seq<T>, gone: seq<bool>, live: seq<T>, i: nat, j: nat, done: seq<T>)
    requires |gone| == |s| && WalkAt(s, gone, live, i, j, done) && i >= |live|
    ensures live == Survivors(s, gone, 0) && done == Removed(s, gone, 0)
  {
    assert live[..i] == live;
  }
}
