/** Shared vocabulary: nullable values and order-preserving selection and counting over
    sequences of records (the model's stand-in for `where(...)->get()` and `->count()`). */
module Prelude {

  /** A nullable column or an absent value. */
  datatype Option<+T> = None | Some(value: T) {
    /** PHP's `$x ?? $default`. */
    function GetOr(default: T): T {
      match this
      case Some(v) => v
      case None => default
    }
  }

  /** The elements of `s` that satisfy `p`, in their original order. */
  function Filter<T>(s: seq<T>, p: T -> bool): (r: seq<T>)
    ensures |r| <= |s|
    ensures forall x :: x in r ==> x in s && p(x)
    ensures forall x :: x in s && p(x) ==> x in r
  {
    if |s| == 0 then []
    else if p(s[0]) then [s[0]] + Filter(s[1..], p)
    else Filter(s[1..], p)
  }

  /** The number of elements of `s` that satisfy `p`. */
  function Count<T>(s: seq<T>, p: T -> bool): nat {
    |Filter(s, p)|
  }

  lemma {:induction false} FilterConcat<T>(a: seq<T>, b: seq<T>, p: T -> bool)
    ensures Filter(a + b, p) == Filter(a, p) + Filter(b, p)
  {
    if |a| == 0 {
      assert a + b == b;
    } else {
      assert (a + b)[1..] == a[1..] + b;
      FilterConcat(a[1..], b, p);
    }
  }

  /** Counting is additive over concatenation. */
  lemma CountConcat<T>(a: seq<T>, b: seq<T>, p: T -> bool)
    ensures Count(a + b, p) == Count(a, p) + Count(b, p)
  {
    FilterConcat(a, b, p);
  }

  /** Counting with a predicate that holds of nothing yields zero; with one that holds of
      everything it yields the length. */
  lemma {:induction false} CountExtremes<T>(s: seq<T>, p: T -> bool)
    ensures (forall x :: x in s ==> !p(x)) ==> Count(s, p) == 0
    ensures (forall x :: x in s ==> p(x)) ==> Count(s, p) == |s|
  {
    if |s| > 0 {
      CountExtremes(s[1..], p);
    }
  }

  /** Counts of two predicates that never hold together add up to the count of their union. */
  lemma {:induction false} CountDisjoint<T>(s: seq<T>, p: T -> bool, q: T -> bool, pq: T -> bool)
    requires forall x :: x in s ==> !(p(x) && q(x))
    requires forall x :: x in s ==> (pq(x) <==> p(x) || q(x))
    ensures Count(s, p) + Count(s, q) == Count(s, pq)
  {
    if |s| > 0 {
      CountDisjoint(s[1..], p, q, pq);
    }
  }

  /** Counting is monotone in the predicate. */
  lemma {:induction false} CountMonotone<T>(s: seq<T>, p: T -> bool, q: T -> bool)
    requires forall x :: x in s && p(x) ==> q(x)
    ensures Count(s, p) <= Count(s, q)
  {
    if |s| > 0 {
      CountMonotone(s[1..], p, q);
    }
  }

  /** Counting depends only on what the predicate says about the elements of `s`. */
  lemma {:induction false} CountCongruent<T>(s: seq<T>, p: T -> bool, q: T -> bool)
    requires forall x :: x in s ==> (p(x) <==> q(x))
    ensures Count(s, p) == Count(s, q)
  {
    if |s| > 0 {
      CountCongruent(s[1..], p, q);
    }
  }

  /** A condition and its negation split a sequence. */
  lemma {:induction false} CountComplement<T>(s: seq<T>, p: T -> bool, np: T -> bool)
    requires forall x :: x in s ==> (np(x) <==> !p(x))
    ensures Count(s, p) + Count(s, np) == |s|
  {
    if |s| > 0 {
      CountComplement(s[1..], p, np);
    }
  }

  /** Selecting with `q` first loses nothing that `p` counts, when `p` implies `q`. */
  lemma {:induction false} CountAfterFilter<T>(s: seq<T>, q: T -> bool, p: T -> bool)
    requires forall x :: x in s && p(x) ==> q(x)
    ensures Count(Filter(s, q), p) == Count(s, p)
  {
    if |s| > 0 {
      CountAfterFilter(s[1..], q, p);
      if q(s[0]) {
        assert Filter(s, q) == [s[0]] + Filter(s[1..], q);
        CountCons([s[0]] + Filter(s[1..], q), p);
        assert ([s[0]] + Filter(s[1..], q))[1..] == Filter(s[1..], q);
      }
    }
  }

  /** Selecting with `p` and then with `q` is selecting once with their conjunction. */
  lemma {:induction false} CountOfFilter<T>(s: seq<T>, p: T -> bool, q: T -> bool, pq: T -> bool)
    requires forall x :: x in s ==> (pq(x) <==> p(x) && q(x))
    ensures Count(Filter(s, p), q) == Count(s, pq)
  {
    if |s| > 0 {
      CountOfFilter(s[1..], p, q, pq);
      if p(s[0]) {
        var f := [s[0]] + Filter(s[1..], p);
        assert Filter(s, p) == f && f[0] == s[0] && f[1..] == Filter(s[1..], p);
      }
    }
  }

  /** A selection keeps every ordering relation that held between the elements it keeps. */
  lemma {:induction false} FilterOrdered<T>(s: seq<T>, p: T -> bool, rel: (T, T) -> bool)
    requires forall i, j :: 0 <= i < j < |s| ==> rel(s[i], s[j])
    ensures forall i, j :: 0 <= i < j < |Filter(s, p)| ==> rel(Filter(s, p)[i], Filter(s, p)[j])
  {
    if |s| > 0 {
      FilterOrdered(s[1..], p, rel);
      var rest := Filter(s[1..], p);
      forall y | y in rest ensures rel(s[0], y) {
        var k :| 0 <= k < |s[1..]| && s[1..][k] == y;
        assert s[k + 1] == y;
      }
      if p(s[0]) {
        var f := [s[0]] + rest;
        assert Filter(s, p) == f;
        forall i, j | 0 <= i < j < |f| ensures rel(f[i], f[j]) {
          if i == 0 {
            assert f[j] == rest[j - 1] && f[j] in rest;
          } else {
            assert f[i] == rest[i - 1] && f[j] == rest[j - 1];
          }
        }
      }
    }
  }

  lemma ConcatAssoc<T>(a: seq<T>, b: seq<T>, c: seq<T>)
    ensures (a + b) + c == a + (b + c)
  {
  }

  /** Replacing a last element that satisfies `p` by one that does not lowers the count by
      one. */
  lemma CountSwapLast<T>(s: seq<T>, x: T, y: T, p: T -> bool)
    requires p(x) && !p(y)
    ensures Count(s + [y], p) + 1 == Count(s + [x], p)
  {
    CountConcat(s, [x], p);
    CountConcat(s, [y], p);
    CountSingleton(x, p);
    CountSingleton(y, p);
  }

  /** A prefix of a prefix is a prefix. */
  lemma PrefixTrans<T>(a: seq<T>, b: seq<T>, c: seq<T>)
    requires |a| <= |b| <= |c| && c[..|b|] == b && b[..|a|] == a
    ensures c[..|a|] == a
  {
    assert c[..|a|] == c[..|b|][..|a|];
  }

  /** Dropping a prefix no longer than the first part of a concatenation. */
  lemma SliceConcat<T>(a: seq<T>, b: seq<T>, n: nat)
    requires n <= |a|
    ensures (a + b)[n..] == a[n..] + b
  {
  }

  /** The count of a non-empty sequence, split at its first element. */
  lemma CountCons<T>(s: seq<T>, p: T -> bool)
    requires |s| > 0
    ensures Count(s, p) == (if p(s[0]) then 1 else 0) + Count(s[1..], p)
  {
  }

  /** A one-element sequence counts one exactly when its element qualifies. */
  lemma CountSingleton<T>(x: T, p: T -> bool)
    ensures Count([x], p) == if p(x) then 1 else 0
  {
    assert [x][1..] == [];
  }

  /** Replacing one element changes the count by what the old and the new element
      contribute. */
  lemma CountUpdate<T>(s: seq<T>, i: int, x: T, p: T -> bool)
    requires 0 <= i < |s|
    ensures Count(s[i := x], p) + (if p(s[i]) then 1 else 0)
         == Count(s, p) + (if p(x) then 1 else 0)
  {
    assert s == s[..i] + [s[i]] + s[i + 1..];
    assert s[i := x] == s[..i] + [x] + s[i + 1..];
    CountConcat(s[..i] + [s[i]], s[i + 1..], p);
    CountConcat(s[..i], [s[i]], p);
    CountConcat(s[..i] + [x], s[i + 1..], p);
    CountConcat(s[..i], [x], p);
    CountSingleton(s[i], p);
    CountSingleton(x, p);
  }

  // Euclidean remainder facts used by the round-robin queue assignment.

  lemma {:induction false} MulMonotone(a: int, b: int, n: nat)
    requires a <= b
    ensures a * n <= b * n
    decreases b - a
  {
    if a < b {
      MulMonotone(a, b - 1, n);
      assert (b - 1) * n == b * n - n;
    }
  }

  lemma MulSucc(q: int, n: int)
    ensures (q + 1) * n == q * n + n
  {
  }

  /** The remainder is determined by any quotient/remainder decomposition. */
  lemma ModUnique(a: int, n: int, q: int, r: int)
    requires n > 0 && 0 <= r < n && a == q * n + r
    ensures a % n == r
  {
    var q2 := a / n;
    if q > q2 {
      MulSucc(q2, n);
      MulMonotone(q2 + 1, q, n);
      assert false;
    } else if q < q2 {
      MulSucc(q, n);
      MulMonotone(q + 1, q2, n);
      assert false;
    }
  }

  lemma ModShift(a: int, n: int)
    requires n > 0
    ensures (a + n) % n == a % n
  {
    MulSucc(a / n, n);
    ModUnique(a + n, n, a / n + 1, a % n);
  }
}
