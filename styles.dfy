/**
 * The list of decoration classes (generic over the entry type) and the two ways the engine edits it
 * (`add_style` appends; `remove_style` deletes by `splice` inside
 * `Array.prototype.some`, so the entry that slides into a deleted slot is
 * never looked at).
 */
module StyleList {

  /**
   * What one `remove_style(k)` does to the list: scanning left to right, an
   * entry equal to `k` is deleted and the entry after it is skipped.
   */
  function RemoveSkip<T(==,!new)>(s: seq<T>, k: T): (r: seq<T>)
    ensures |r| <= |s|
  {
    if |s| == 0 then []
    else if |s| == 1 then (if s[0] == k then [] else s)
    else if s[0] == k then [s[1]] + RemoveSkip(s[2..], k)
    else [s[0]] + RemoveSkip(s[1..], k)
  }

  /**
   * The list a scan that has looked at `i` indices will leave: the part
   * already passed, then the rest with `k` removed; once the index has run
   * past the end of the shrinking list, the list itself.
   */
  function Pending<T(==,!new)>(s: seq<T>, i: nat, k: T): seq<T>
  {
    if i <= |s| then s[..i] + RemoveSkip(s[i..], k) else s
  }

  /** Splicing out a `k` at index `i` and moving on leaves the same outcome pending. */
  lemma PendingSplice<T(!new)>(s: seq<T>, i: nat, k: T)
    requires i < |s| && s[i] == k
    ensures Pending(s[..i] + s[i + 1..], i + 1, k) == Pending(s, i, k)
  {
    var t := s[..i] + s[i + 1..];
    if i + 1 < |s| {
      var r := RemoveSkip(s[i + 2..], k);
      assert RemoveSkip(s[i..], k) == [s[i + 1]] + r by {
        assert s[i..][0] == k && s[i..][1] == s[i + 1] && s[i..][2..] == s[i + 2..];
      }
      assert t[..i + 1] == s[..i] + [s[i + 1]];
      assert t[i + 1..] == s[i + 2..];
      assert Pending(t, i + 1, k) == (s[..i] + [s[i + 1]]) + r;
      assert (s[..i] + [s[i + 1]]) + r == s[..i] + ([s[i + 1]] + r);
    } else {
      assert s[i..] == [k];
      assert t == s[..i];
    }
  }

  /** Passing over an entry that is not `k` leaves the same outcome pending. */
  lemma PendingKeep<T(!new)>(s: seq<T>, i: nat, k: T)
    requires i < |s| && s[i] != k
    ensures Pending(s, i + 1, k) == Pending(s, i, k)
  {
    assert s[..i + 1] == s[..i] + [s[i]];
    if i + 1 < |s| {
      assert s[i..] == [s[i]] + s[i + 1..];
    } else {
      assert s[i..] == [s[i]];
      assert s[i + 1..] == [];
    }
  }

  /** Once the index has reached the end of the list, nothing is pending any more. */
  lemma PendingPastEnd<T(!new)>(s: seq<T>, i: nat, k: T)
    requires i >= |s|
    ensures Pending(s, i, k) == s
  {
    if i == |s| {
      assert s[..i] == s && s[i..] == [];
    }
  }

  /**
   * `remove_style(k)` deletes nothing but copies of `k`: once every `k` is
   * dropped, the list before and after are the same.
   */
  lemma {:induction false} RemoveSkipOnlyRemovesK<T(!new)>(s: seq<T>, k: T)
    ensures Filter(RemoveSkip(s, k), k) == Filter(s, k)
  {
    if |s| == 1 {
      assert s[1..] == [];
    } else if |s| >= 2 {
      if s[0] == k {
        var r := RemoveSkip(s[2..], k);
        RemoveSkipOnlyRemovesK(s[2..], k);
        assert ([s[1]] + r)[1..] == r;
        assert s[1..][1..] == s[2..];
      } else {
        var r := RemoveSkip(s[1..], k);
        RemoveSkipOnlyRemovesK(s[1..], k);
        assert ([s[0]] + r)[1..] == r;
      }
    }
  }

  /** The reference behaviour: every occurrence of `k` deleted, the rest kept in order. */
  function Filter<T(==,!new)>(s: seq<T>, k: T): (r: seq<T>)
    ensures forall x :: x in r <==> x in s && x != k
  {
    if s == [] then [] else (if s[0] == k then [] else [s[0]]) + Filter(s[1..], k)
  }

  /** `remove_style([k1, k2, ...])`: one `remove_style` per class, in order. */
  function RemoveEach<T(==,!new)>(s: seq<T>, ks: seq<T>): (r: seq<T>)
    ensures |r| <= |s|
  {
    if ks == [] then s else RemoveSkip(RemoveEach(s, ks[..|ks| - 1]), ks[|ks| - 1])
  }

  /** Two equal entries `k` sit next to each other somewhere in `s`. */
  ghost predicate HasAdjacentPair<T(!new)>(s: seq<T>, k: T)
  {
    exists i :: 0 <= i < |s| - 1 && s[i] == k && s[i + 1] == k
  }

  /** `a` is `b` with some entries deleted. */
  ghost predicate IsSubsequence<T(!new)>(a: seq<T>, b: seq<T>)
    decreases |b|
  {
    a == [] || (b != [] && ((a[0] == b[0] && IsSubsequence(a[1..], b[1..])) || IsSubsequence(a, b[1..])))
  }

  /** Adjacent copies in `[x] + s`: at the front, or inside `s`. */
  lemma AdjacentPairCons<T(!new)>(x: T, s: seq<T>, k: T)
    ensures HasAdjacentPair([x] + s, k) <==> (s != [] && x == k && s[0] == k) || HasAdjacentPair(s, k)
  {
    var t := [x] + s;
    if HasAdjacentPair(t, k) {
      var i :| 0 <= i < |t| - 1 && t[i] == k && t[i + 1] == k;
      if i > 0 {
        assert s[i - 1] == k && s[i] == k;
      }
    }
    if HasAdjacentPair(s, k) {
      var i :| 0 <= i < |s| - 1 && s[i] == k && s[i + 1] == k;
      assert t[i + 1] == k && t[i + 2] == k;
    }
    if s != [] && x == k && s[0] == k {
      assert t[0] == k && t[1] == k;
    }
  }

  /** Survivors of `remove_style` keep their relative order. */
  lemma {:induction false} RemoveSkipIsSubsequence<T(!new)>(s: seq<T>, k: T)
    ensures IsSubsequence(RemoveSkip(s, k), s)
  {
    if |s| == 0 {
    } else if |s| == 1 {
      if s[0] != k {
        SubsequenceReflexive(s);
      }
    } else if s[0] == k {
      RemoveSkipIsSubsequence(s[2..], k);
      var r := RemoveSkip(s, k);
      assert r[1..] == RemoveSkip(s[2..], k);
      assert s[1..][1..] == s[2..];
      assert IsSubsequence(r, s[1..]);
    } else {
      RemoveSkipIsSubsequence(s[1..], k);
      var r := RemoveSkip(s, k);
      assert r[1..] == RemoveSkip(s[1..], k);
    }
  }

  /** Every list is a subsequence of itself. */
  lemma {:induction false} SubsequenceReflexive<T(!new)>(s: seq<T>)
    ensures IsSubsequence(s, s)
    decreases |s|
  {
    if s != [] {
      SubsequenceReflexive(s[1..]);
    }
  }

  /**
   * `remove_style(k)` leaves `k` in the list exactly when the list held two
   * adjacent copies of `k`.
   */
  lemma {:induction false} RemoveSkipLeavesKIff<T(!new)>(s: seq<T>, k: T)
    ensures k in RemoveSkip(s, k) <==> HasAdjacentPair(s, k)
  {
    if |s| == 0 {
    } else if |s| == 1 {
    } else if s[0] == k {
      RemoveSkipLeavesKIff(s[2..], k);
      assert s[1..][1..] == s[2..];
      assert s == [s[0]] + s[1..];
      assert s[1..] == [s[1]] + s[2..];
      AdjacentPairCons(s[0], s[1..], k);
      AdjacentPairCons(s[1], s[2..], k);
    } else {
      RemoveSkipLeavesKIff(s[1..], k);
      assert s == [s[0]] + s[1..];
      AdjacentPairCons(s[0], s[1..], k);
    }
  }

  /**
   * `remove_style(k)` does what deleting every `k` does exactly when the
   * list holds no two adjacent copies of `k`.
   */
  lemma {:induction false} RemoveSkipIsFilterIff<T(!new)>(s: seq<T>, k: T)
    ensures RemoveSkip(s, k) == Filter(s, k) <==> !HasAdjacentPair(s, k)
  {
    if HasAdjacentPair(s, k) {
      RemoveSkipLeavesKIff(s, k);
    } else {
      NoPairRemovesAll(s, k);
    }
  }

  /** Without adjacent copies, every copy is removed. */
  lemma {:induction false} NoPairRemovesAll<T(!new)>(s: seq<T>, k: T)
    requires !HasAdjacentPair(s, k)
    ensures RemoveSkip(s, k) == Filter(s, k)
    decreases |s|
  {
    if |s| == 0 {
    } else if |s| == 1 {
      assert Filter(s[1..], k) == [];
    } else {
      assert s == [s[0]] + s[1..];
      AdjacentPairCons(s[0], s[1..], k);
      NoPairRemovesAll(s[1..], k);
      if s[0] == k {
        // the skipped entry is not `k`, so deleting every `k` keeps it too
        assert s[1] != k;
        assert s[1..] == [s[1]] + s[2..];
        AdjacentPairCons(s[1], s[2..], k);
        NoPairRemovesAll(s[2..], k);
        assert s[1..][1..] == s[2..];
      }
    }
  }

  /** `n` copies of `k`. */
  function Repeat<T(==,!new)>(k: T, n: nat): (r: seq<T>)
    ensures |r| == n
  {
    if n == 0 then [] else [k] + Repeat(k, n - 1)
  }

  /** In a run of `n` copies of `k`, `remove_style(k)` deletes only every other one. */
  lemma {:induction false} RemoveSkipRun<T(!new)>(k: T, n: nat)
    ensures RemoveSkip(Repeat(k, n), k) == Repeat(k, n / 2)
  {
    if n >= 2 {
      var s := Repeat(k, n);
      assert s[1..] == Repeat(k, n - 1);
      assert s[2..] == Repeat(k, n - 2);
      RemoveSkipRun(k, n - 2);
      assert Repeat(k, n / 2) == [k] + Repeat(k, n / 2 - 1);
    }
  }

  /**
   * Two classes of one family that never sit next to each other: deleting
   * the first family member cannot bring two copies of the second together.
   */
  ghost predicate Separated<T(!new)>(s: seq<T>, a: T, b: T)
  {
    forall i :: 0 <= i < |s| - 1 && (s[i] == a || s[i] == b) ==> s[i + 1] != a && s[i + 1] != b
  }

  /** Removing `a` from a list where the family never sits together leaves no adjacent copies of `b`. */
  lemma {:induction false} SeparatedRemoveKeepsNoPair<T(!new)>(s: seq<T>, a: T, b: T)
    requires a != b
    requires Separated(s, a, b)
    ensures !HasAdjacentPair(RemoveSkip(s, a), b)
    decreases |s|
  {
    if |s| >= 2 {
      var r := RemoveSkip(s, a);
      assert Separated(s[1..], a, b) by {
        forall i | 0 <= i < |s[1..]| - 1 && (s[1..][i] == a || s[1..][i] == b)
          ensures s[1..][i + 1] != a && s[1..][i + 1] != b
        {
          assert s[1..][i] == s[i + 1] && s[1..][i + 1] == s[i + 2];
        }
      }
      if s[0] == a {
        assert s[1] != a && s[1] != b;
        if |s| > 2 {
          assert Separated(s[2..], a, b) by {
            forall i | 0 <= i < |s[2..]| - 1 && (s[2..][i] == a || s[2..][i] == b)
              ensures s[2..][i + 1] != a && s[2..][i + 1] != b
            {
              assert s[2..][i] == s[i + 2] && s[2..][i + 1] == s[i + 3];
            }
          }
        }
        SeparatedRemoveKeepsNoPair(s[2..], a, b);
        AdjacentPairCons(s[1], RemoveSkip(s[2..], a), b);
      } else {
        SeparatedRemoveKeepsNoPair(s[1..], a, b);
        var rest := RemoveSkip(s[1..], a);
        if s[0] == b {
          // s[1] is outside the family, so it survives at the head of `rest`
          assert s[1] != a && s[1] != b;
          assert rest[0] == s[1];
        }
        AdjacentPairCons(s[0], rest, b);
      }
    }
  }

  /** The array `[a, b]` removes `a`, then `b`. */
  lemma RemoveEachPair<T(!new)>(s: seq<T>, a: T, b: T)
    ensures RemoveEach(s, [a, b]) == RemoveSkip(RemoveSkip(s, a), b)
  {
    var ks := [a, b];
    assert ks[..|ks| - 1] == [a];
    assert [a][..0] == [];
    assert RemoveEach(s, [a]) == RemoveSkip(RemoveEach(s, []), a);
  }

  /** A separated family has no adjacent copies of its first class. */
  lemma SeparatedHasNoPair<T(!new)>(s: seq<T>, a: T, b: T)
    requires Separated(s, a, b)
    ensures !HasAdjacentPair(s, a)
  {
  }

  /**
   * `remove_style([a, b])` on a list where the two classes never sit next to
   * each other leaves neither.
   */
  lemma RemoveFamily<T(!new)>(s: seq<T>, a: T, b: T)
    requires a != b
    requires Separated(s, a, b)
    ensures var r := RemoveEach(s, [a, b]); a !in r && b !in r
  {
    RemoveEachPair(s, a, b);
    var once := RemoveSkip(s, a);
    var r := RemoveSkip(once, b);
    SeparatedHasNoPair(s, a, b);
    RemoveSkipLeavesKIff(s, a);
    SeparatedRemoveKeepsNoPair(s, a, b);
    RemoveSkipLeavesKIff(once, b);
    RemoveSkipOnlyRemovesK(once, b);
    assert a in r <==> a in Filter(r, b);
  }
}
