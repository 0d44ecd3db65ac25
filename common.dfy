/** Small value types and sequence helpers shared by every module of the model. */
module Common {

  datatype Option<+T> = None | Some(value: T)

  function Min(a: int, b: int): int { if a <= b then a else b }

  function Max(a: int, b: int): int { if a >= b then a else b }

  /** Sum of a sequence of integers, peeled from the right so that extending
      a prefix by one element is one unfolding. */
  function Sum(s: seq<int>): int
  {
    if s == [] then 0 else Sum(s[..|s| - 1]) + s[|s| - 1]
  }

  lemma {:induction false} SumAppend(a: seq<int>, b: seq<int>)
    ensures Sum(a + b) == Sum(a) + Sum(b)
    decreases |b|
  {
    if b == [] {
      assert a + b == a;
    } else {
      assert (a + b)[..|a + b| - 1] == a + b[..|b| - 1];
      SumAppend(a, b[..|b| - 1]);
    }
  }

  lemma {:induction false} SumNonNegative(s: seq<int>)
    requires forall k | 0 <= k < |s| :: s[k] >= 0
    ensures Sum(s) >= 0
    decreases |s|
  {
    if s != [] {
      SumNonNegative(s[..|s| - 1]);
    }
  }

  /** Sum of a prefix is at most the sum of the whole when every element is non-negative. */
  lemma {:induction false} SumPrefixLe(s: seq<int>, i: nat)
    requires i <= |s|
    requires forall k | 0 <= k < |s| :: s[k] >= 0
    ensures Sum(s[..i]) <= Sum(s)
    decreases |s| - i
  {
    if i < |s| {
      SumPrefixLe(s, i + 1);
      assert s[..i + 1][..i] == s[..i];
    } else {
      assert s[..i] == s;
    }
  }

  lemma MulMonotone(a: int, b: int, c: int)
    requires 0 <= a <= b && 0 <= c
    ensures 0 <= a * c <= b * c
  {
    assert b * c == a * c + (b - a) * c;
  }

  /** Concatenation of a sequence of sequences, peeled from the right. */
  function Flatten<T>(xss: seq<seq<T>>): seq<T>
  {
    if xss == [] then [] else Flatten(xss[..|xss| - 1]) + xss[|xss| - 1]
  }

  lemma {:induction false} FlattenAppend<T>(a: seq<seq<T>>, b: seq<seq<T>>)
    ensures Flatten(a + b) == Flatten(a) + Flatten(b)
    decreases |b|
  {
    if b == [] {
      assert a + b == a;
    } else {
      var p := a + b;
      var init := b[..|b| - 1];
      var last := b[|b| - 1];
      assert p[..|p| - 1] == a + init && p[|p| - 1] == last;
      assert Flatten(p) == Flatten(a + init) + last;
      assert Flatten(b) == Flatten(init) + last;
      FlattenAppend(a, init);
      assert Flatten(a + init) == Flatten(a) + Flatten(init);
    }
  }

  /** The lengths of the pieces. */
  function Lengths<T>(xss: seq<seq<T>>): (r: seq<int>)
    ensures |r| == |xss|
    ensures forall k | 0 <= k < |xss| :: r[k] == |xss[k]|
  {
    seq(|xss|, k requires 0 <= k < |xss| => |xss[k]|)
  }

  lemma LengthsPrefix<T>(xss: seq<seq<T>>, i: nat)
    requires i <= |xss|
    ensures Lengths(xss[..i]) == Lengths(xss)[..i]
  {
  }

  lemma {:induction false} FlattenLength<T>(xss: seq<seq<T>>)
    ensures |Flatten(xss)| == Sum(Lengths(xss))
    decreases |xss|
  {
    if xss != [] {
      FlattenLength(xss[..|xss| - 1]);
      assert Lengths(xss)[..|xss| - 1] == Lengths(xss[..|xss| - 1]);
    }
  }

  /** Element j of piece i sits at position Sum(Lengths(xss[..i])) + j of the concatenation. */
  lemma {:induction false} FlattenIndex<T>(xss: seq<seq<T>>, i: nat, j: nat)
    requires i < |xss| && j < |xss[i]|
    ensures 0 <= Sum(Lengths(xss[..i])) && Sum(Lengths(xss[..i])) + j < |Flatten(xss)|
      && Flatten(xss)[Sum(Lengths(xss[..i])) + j] == xss[i][j]
    decreases |xss|
  {
    var n := |xss|;
    assert Flatten(xss) == Flatten(xss[..n - 1]) + xss[n - 1];
    FlattenLength(xss[..n - 1]);
    FlattenLength(xss[..i]);
    if i == n - 1 {
      assert xss[..n - 1] == xss[..i];
    } else {
      FlattenIndex(xss[..n - 1], i, j);
      assert xss[..n - 1][..i] == xss[..i];
    }
  }

  /** The elements that satisfy `p`, in order (a `WHERE` clause over a table). */
  function Filter<T>(xs: seq<T>, p: T -> bool): (r: seq<T>)
    ensures |r| <= |xs|
  {
    if xs == [] then [] else Filter(xs[..|xs| - 1], p) + (if p(xs[|xs| - 1]) then [xs[|xs| - 1]] else [])
  }

  lemma {:induction false} FilterMember<T>(xs: seq<T>, p: T -> bool, x: T)
    ensures x in Filter(xs, p) <==> x in xs && p(x)
    decreases |xs|
  {
    if xs != [] {
      var init := xs[..|xs| - 1];
      FilterMember(init, p, x);
      assert xs == init + [xs[|xs| - 1]];
    }
  }

  lemma {:induction false} FilterEmpty<T>(xs: seq<T>, p: T -> bool)
    ensures Filter(xs, p) == [] <==> forall k | 0 <= k < |xs| :: !p(xs[k])
    decreases |xs|
  {
    if xs != [] {
      var init := xs[..|xs| - 1];
      FilterEmpty(init, p);
      assert forall k | 0 <= k < |init| :: init[k] == xs[k];
    }
  }

  /** When at most one element satisfies `p`, the filter has at most that element. */
  lemma {:induction false} FilterAtMostOne<T>(xs: seq<T>, p: T -> bool)
    requires forall i, j | 0 <= i < j < |xs| :: !(p(xs[i]) && p(xs[j]))
    ensures |Filter(xs, p)| <= 1
    decreases |xs|
  {
    if xs != [] {
      var init := xs[..|xs| - 1];
      FilterAtMostOne(init, p);
      if p(xs[|xs| - 1]) {
        assert forall k | 0 <= k < |init| :: !p(init[k]) by {
          forall k | 0 <= k < |init| ensures !p(init[k]) { assert init[k] == xs[k]; }
        }
        FilterEmpty(init, p);
      }
    }
  }

  /** When at most one element satisfies `p`, the filter is exactly that one. */
  lemma FilterOnly<T>(xs: seq<T>, p: T -> bool, x: T)
    requires forall i, j | 0 <= i < j < |xs| :: !(p(xs[i]) && p(xs[j]))
    requires x in xs && p(x)
    ensures Filter(xs, p) == [x]
  {
    var f := Filter(xs, p);
    FilterAtMostOne(xs, p);
    var a :| 0 <= a < |xs| && xs[a] == x;
    FilterEmpty(xs, p);
    FilterMember(xs, p, f[0]);
    var b :| 0 <= b < |xs| && xs[b] == f[0];
    assert a == b;
  }

  /** A filter keeps a property of every ordered pair of elements. */
  lemma {:induction false} FilterPairs<T>(xs: seq<T>, p: T -> bool, ok: (T, T) -> bool)
    requires forall i, j | 0 <= i < j < |xs| :: ok(xs[i], xs[j])
    ensures forall i, j | 0 <= i < j < |Filter(xs, p)| :: ok(Filter(xs, p)[i], Filter(xs, p)[j])
    decreases |xs|
  {
    if xs != [] {
      var init := xs[..|xs| - 1];
      var last := xs[|xs| - 1];
      var f := Filter(init, p);
      FilterPairs(init, p, ok);
      if p(last) {
        var g := f + [last];
        forall i, j | 0 <= i < j < |g| ensures ok(g[i], g[j]) {
          if j < |f| {
            assert g[i] == f[i] && g[j] == f[j];
          } else {
            FilterMember(init, p, f[i]);
            var a :| 0 <= a < |init| && init[a] == f[i];
            assert ok(xs[a], xs[|xs| - 1]);
          }
        }
      }
    }
  }

  /** `scalar_one_or_none()`: no row, the one row, or MultipleResultsFound. */
  datatype Lookup<T> = NoRow | OneRow(row: T) | ManyRows

  function ScalarOneOrNone<T>(rows: seq<T>): (r: Lookup<T>)
    ensures r.NoRow? <==> rows == []
    ensures r.OneRow? <==> |rows| == 1
    ensures r.OneRow? ==> r.row == rows[0]
  {
    if rows == [] then NoRow else if |rows| == 1 then OneRow(rows[0]) else ManyRows
  }
}
