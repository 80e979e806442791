/**
 * The two array update operators of the document store that the route
 * handlers use on a user's `pendingTasks`: `$addToSet` (append when absent)
 * and `$pull` (remove every occurrence), modelled on sequences.
 */
module UpdateOperators {

  /** Number of occurrences of `x` in `s`. */
  function Count(s: seq<string>, x: string): (n: nat)
    ensures n <= |s|
    ensures n > 0 <==> x in s
  {
    if s == [] then 0 else (if s[0] == x then 1 else 0) + Count(s[1..], x)
  }

  /** `a` can be obtained from `b` by deleting entries; the entries kept stay in order. */
  predicate Subsequence(a: seq<string>, b: seq<string>)
    decreases |b|
  {
    if a == [] then true
    else if b == [] then false
    else if a[0] == b[0] then Subsequence(a[1..], b[1..])
    else Subsequence(a, b[1..])
  }

  /** No entry occurs twice. */
  predicate NoDuplicates(s: seq<string>)
  {
    forall i, j :: 0 <= i < j < |s| ==> s[i] != s[j]
  }

  lemma {:induction false} CountAppend(s: seq<string>, t: seq<string>, x: string)
    ensures Count(s + t, x) == Count(s, x) + Count(t, x)
  {
    if s == [] {
      assert s + t == t;
    } else {
      assert (s + t)[1..] == s[1..] + t;
      CountAppend(s[1..], t, x);
    }
  }

  lemma {:induction false} CountOfNoDuplicates(s: seq<string>, x: string)
    requires NoDuplicates(s)
    ensures Count(s, x) == if x in s then 1 else 0
  {
    if s != [] {
      assert NoDuplicates(s[1..]) by {
        forall i, j | 0 <= i < j < |s[1..]| ensures s[1..][i] != s[1..][j] {
          assert s[1..][i] == s[i + 1] && s[1..][j] == s[j + 1];
        }
      }
      CountOfNoDuplicates(s[1..], x);
      if s[0] == x {
        assert x !in s[1..] by {
          forall k | 0 <= k < |s[1..]| ensures s[1..][k] != x {
            assert s[1..][k] == s[k + 1];
          }
        }
      }
    }
  }

  /**
   * `$addToSet`: append `x` unless it is already present. The existing
   * entries keep their positions, and `x` then occurs at least once; it
   * occurs exactly once unless it already occurred more often.
   */
  function AddToSet(s: seq<string>, x: string): (r: seq<string>)
    ensures x in r
    ensures s <= r && |r| <= |s| + 1
    ensures x in s ==> r == s
    ensures forall y :: y in r <==> y in s || y == x
    ensures Count(r, x) == if x in s then Count(s, x) else 1
    ensures forall y :: y != x ==> Count(r, y) == Count(s, y)
  {
    if x in s then s
    else
      CountAppend(s, [x], x);
      assert forall y :: y != x ==> Count(s + [x], y) == Count(s, y) by {
        forall y | y != x ensures Count(s + [x], y) == Count(s, y) {
          CountAppend(s, [x], y);
        }
      }
      s + [x]
  }

  /** `$pull`: remove every occurrence of `x`, keeping everything else. */
  function Pull(s: seq<string>, x: string): (r: seq<string>)
    ensures x !in r
    ensures forall y :: y in r <==> y in s && y != x
    ensures |r| == |s| - Count(s, x)
    ensures x !in s ==> r == s
  {
    if s == [] then []
    else if s[0] == x then Pull(s[1..], x)
    else [s[0]] + Pull(s[1..], x)
  }

  /** `$pull` of a value the list did not hold before it was appended leaves the list as it was. */
  lemma {:induction false} PullOfAppended(s: seq<string>, x: string)
    requires x !in s
    ensures Pull(s + [x], x) == s
  {
    if s == [] {
      assert s + [x] == [x] && [x][1..] == [];
    } else {
      assert (s + [x])[0] == s[0] && (s + [x])[1..] == s[1..] + [x];
      PullOfAppended(s[1..], x);
      assert s == [s[0]] + s[1..];
    }
  }

  /** `$pull` keeps the other entries in their original order. */
  lemma {:induction false} PullKeepsOrder(s: seq<string>, x: string)
    ensures Subsequence(Pull(s, x), s)
  {
    if s != [] {
      PullKeepsOrder(s[1..], x);
      if s[0] != x {
        assert ([s[0]] + Pull(s[1..], x))[1..] == Pull(s[1..], x);
      } else {
        SubsequenceOfTail(Pull(s[1..], x), s);
      }
    }
  }

  lemma {:induction false} SubsequenceOfTail(a: seq<string>, b: seq<string>)
    requires b != [] && Subsequence(a, b[1..])
    ensures Subsequence(a, b)
    decreases |a| + |b|
  {
    if a != [] && a[0] == b[0] {
      if |b| > 1 {
        SubsequenceFromTail(a, b[1..]);
      }
    }
  }

  lemma {:induction false} SubsequenceFromTail(a: seq<string>, b: seq<string>)
    requires a != [] && Subsequence(a, b)
    ensures Subsequence(a[1..], b)
    decreases |a| + |b|
  {
    if a[1..] != [] {
      if a[0] == b[0] {
        SubsequenceOfTail(a[1..], b);
      } else {
        SubsequenceFromTail(a, b[1..]);
        SubsequenceOfTail(a[1..], b);
      }
    }
  }

  /** `$pull` leaves the number of occurrences of every other value unchanged. */
  lemma {:induction false} PullCountOther(s: seq<string>, x: string, y: string)
    requires y != x
    ensures Count(Pull(s, x), y) == Count(s, y)
  {
    if s != [] {
      PullCountOther(s[1..], x, y);
      if s[0] != x {
        assert ([s[0]] + Pull(s[1..], x))[1..] == Pull(s[1..], x);
      }
    }
  }

  /** Applying `$addToSet` twice with the same value is the same as applying it once. */
  lemma AddToSetIdempotent(s: seq<string>, x: string)
    ensures AddToSet(AddToSet(s, x), x) == AddToSet(s, x)
  {
  }

  /** Applying `$pull` twice with the same value is the same as applying it once. */
  lemma PullIdempotent(s: seq<string>, x: string)
    ensures Pull(Pull(s, x), x) == Pull(s, x)
  {
  }

  /** A `$pull` after an `$addToSet` of the same value undoes the insert. */
  lemma {:induction false} PullCancelsAddToSet(s: seq<string>, x: string)
    ensures Pull(AddToSet(s, x), x) == Pull(s, x)
  {
    if x !in s {
      PullOfAppended(s, x);
    }
  }
}
