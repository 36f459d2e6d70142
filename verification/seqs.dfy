/** Order-preserving selection from a sequence, the counterpart of
    JavaScript's `Array.prototype.filter`, and the facts about it that the
    task board relies on. */
module Seqs {

  /** `a` can be obtained from `b` by deleting elements, without reordering
      the ones that remain. */
  predicate SubseqOf<T(==)>(a: seq<T>, b: seq<T>)
    decreases |b|
  {
    |a| == 0 ||
    (|b| > 0 && ((a[0] == b[0] && SubseqOf(a[1..], b[1..])) || SubseqOf(a, b[1..])))
  }

  /** The elements of `s` satisfying `keep`, in their original order. */
  function Filter<T(!new)>(s: seq<T>, keep: T -> bool): (r: seq<T>)
    ensures |r| <= |s|
    ensures forall x :: x in r <==> x in s && keep(x)
  {
    if |s| == 0 then []
    else
      var rest := Filter(s[1..], keep);
      assert forall x :: x in s <==> x == s[0] || x in s[1..];
      if keep(s[0]) then [s[0]] + rest else rest
  }

  /** Filtering keeps every passing element as often as it occurs, and no
      other element. */
  lemma {:induction false} FilterMultiset<T(!new)>(s: seq<T>, keep: T -> bool)
    ensures forall x :: multiset(Filter(s, keep))[x] == if keep(x) then multiset(s)[x] else 0
  {
    if |s| > 0 {
      FilterMultiset(s[1..], keep);
      assert s == [s[0]] + s[1..];
    }
  }

  /** Filtering preserves the order of the elements it keeps. */
  lemma {:induction false} FilterSubseq<T(!new)>(s: seq<T>, keep: T -> bool)
    ensures SubseqOf(Filter(s, keep), s)
  {
    if |s| > 0 {
      FilterSubseq(s[1..], keep);
      var rest := Filter(s[1..], keep);
      if keep(s[0]) {
        assert ([s[0]] + rest)[1..] == rest;
      }
    }
  }

  /** When every element passes, filtering returns the sequence itself. */
  lemma {:induction false} FilterAllKept<T(!new)>(s: seq<T>, keep: T -> bool)
    requires forall i :: 0 <= i < |s| ==> keep(s[i])
    ensures Filter(s, keep) == s
  {
    if |s| > 0 {
      FilterAllKept(s[1..], keep);
      assert s == [s[0]] + s[1..];
    }
  }

  /** Filtering distributes over concatenation. */
  lemma {:induction false} FilterAppend<T(!new)>(a: seq<T>, b: seq<T>, keep: T -> bool)
    ensures Filter(a + b, keep) == Filter(a, keep) + Filter(b, keep)
  {
    if |a| == 0 {
      assert a + b == b;
    } else {
      assert (a + b)[1..] == a[1..] + b;
      FilterAppend(a[1..], b, keep);
    }
  }

  /** Filtering by two predicates in either order gives the same result. */
  lemma {:induction false} FilterCommutes<T(!new)>(s: seq<T>, f: T -> bool, g: T -> bool)
    ensures Filter(Filter(s, f), g) == Filter(Filter(s, g), f)
  {
    if |s| > 0 {
      FilterCommutes(s[1..], f, g);
    }
  }

  /** Filtering twice by the same predicate changes nothing the second time. */
  lemma {:induction false} FilterIdempotent<T(!new)>(s: seq<T>, keep: T -> bool)
    ensures Filter(Filter(s, keep), keep) == Filter(s, keep)
  {
    if |s| > 0 {
      FilterIdempotent(s[1..], keep);
    }
  }

  /** A predicate and its negation split a sequence: together they keep
      every element exactly once. */
  lemma {:induction false} FilterComplement<T(!new)>(s: seq<T>, f: T -> bool, g: T -> bool)
    requires forall x :: g(x) == !f(x)
    ensures |Filter(s, f)| + |Filter(s, g)| == |s|
  {
    if |s| > 0 {
      FilterComplement(s[1..], f, g);
    }
  }

  /** Applying `g` to each element commutes with filtering by `f` when `g`
      never changes the outcome of `f`. */
  lemma {:induction false} FilterMapCommute<T(!new)>(s: seq<T>, f: T -> bool, g: T -> T)
    requires forall x {:trigger f(g(x))} :: f(g(x)) == f(x)
    ensures Filter(Map(s, g), f) == Map(Filter(s, f), g)
  {
    if |s| > 0 {
      var m := Map(s, g);
      assert m[0] == g(s[0]);
      assert m[1..] == Map(s[1..], g);
      FilterMapCommute(s[1..], f, g);
      var tail := Filter(m[1..], f);
      assert tail == Map(Filter(s[1..], f), g);
      if f(s[0]) {
        assert f(m[0]);
        calc {
          Filter(m, f);
          [m[0]] + tail;
          [g(s[0])] + Map(Filter(s[1..], f), g);
          { MapAppend([s[0]], Filter(s[1..], f), g); }
          Map([s[0]] + Filter(s[1..], f), g);
          Map(Filter(s, f), g);
        }
      } else {
        assert !f(m[0]);
        assert Filter(m, f) == tail;
        assert Filter(s, f) == Filter(s[1..], f);
      }
    }
  }

  /** Mapping distributes over concatenation. */
  lemma MapAppend<T, U>(a: seq<T>, b: seq<T>, g: T -> U)
    ensures Map(a + b, g) == Map(a, g) + Map(b, g)
  {
  }

  /** `g` applied to every element of `s`, the counterpart of
      `Array.prototype.map`. */
  function Map<T, U>(s: seq<T>, g: T -> U): seq<U>
  {
    seq(|s|, i requires 0 <= i < |s| => g(s[i]))
  }

  /** A subsequence is no longer than the sequence it is drawn from. */
  lemma {:induction false} SubseqLength<T>(a: seq<T>, b: seq<T>)
    requires SubseqOf(a, b)
    ensures |a| <= |b|
    decreases |b|
  {
    if |a| > 0 {
      if a[0] == b[0] && SubseqOf(a[1..], b[1..]) {
        SubseqLength(a[1..], b[1..]);
      } else {
        SubseqLength(a, b[1..]);
      }
    }
  }

  /** Every sequence is a subsequence of itself. */
  lemma {:induction false} SubseqOfSelf<T>(s: seq<T>)
    ensures SubseqOf(s, s)
  {
    if |s| > 0 {
      SubseqOfSelf(s[1..]);
    }
  }

  /** Filtering a single element keeps it exactly when it passes. */
  lemma FilterOne<T(!new)>(x: T, keep: T -> bool)
    ensures Filter([x], keep) == if keep(x) then [x] else []
  {
    assert [x][1..] == [];
  }

  /** Filtering two elements keeps each that passes, in order. */
  lemma FilterTwo<T(!new)>(x: T, y: T, keep: T -> bool)
    ensures Filter([x, y], keep) == (if keep(x) then [x] else []) + (if keep(y) then [y] else [])
  {
    FilterAppend([x], [y], keep);
    FilterOne(x, keep);
    FilterOne(y, keep);
    assert [x] + [y] == [x, y];
  }
}
