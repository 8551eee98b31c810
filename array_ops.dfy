/** The numpy indexing primitives the loaders rely on: `np.where(mask)[0]`,
    boolean-mask selection `xs[mask]`, integer-array gathering `xs[idx]` and
    integer-array assignment `xs[idx] = vals`. */
module ArrayOps {

  predicate Increasing(s: seq<int>)
  {
    forall i, j :: 0 <= i < j < |s| ==> s[i] < s[j]
  }

  function CountTrue(mask: seq<bool>): (n: nat)
  {
    if |mask| == 0 then 0
    else CountTrue(mask[..|mask| - 1]) + (if mask[|mask| - 1] then 1 else 0)
  }

  /** The element-wise comparison `ids == v`. */
  function EqMask<T(==)>(ids: seq<T>, v: T): (m: seq<bool>)
    ensures |m| == |ids|
    ensures forall i :: 0 <= i < |ids| ==> (m[i] <==> ids[i] == v)
  {
    seq(|ids|, i requires 0 <= i < |ids| => ids[i] == v)
  }

  predicate InBounds(idx: seq<nat>, n: nat)
  {
    forall k :: 0 <= k < |idx| ==> idx[k] < n
  }

  /** `np.where(mask)[0]`: the positions where the mask holds, ascending. */
  function Where(mask: seq<bool>): (r: seq<nat>)
    ensures Increasing(r)
    ensures forall k :: 0 <= k < |r| ==> r[k] < |mask| && mask[r[k]]
    ensures forall i :: 0 <= i < |mask| && mask[i] ==> i in r
    ensures |r| == CountTrue(mask)
  {
    if |mask| == 0 then []
    else
      var n := |mask| - 1;
      var prefix := Where(mask[..n]);
      assert forall k :: 0 <= k < |prefix| ==> prefix[k] < n && mask[prefix[k]];
      assert forall i :: 0 <= i < n && mask[i] ==> mask[..n][i];
      prefix + (if mask[n] then [n] else [])
  }

  /** `xs[idx]` for an integer index array. */
  function Gather<T>(xs: seq<T>, idx: seq<nat>): (r: seq<T>)
    requires InBounds(idx, |xs|)
    ensures |r| == |idx|
  {
    seq(|idx|, k requires 0 <= k < |idx| => xs[idx[k]])
  }

  /** `xs[mask]` for a boolean mask of the same length. */
  function Masked<T>(xs: seq<T>, mask: seq<bool>): (r: seq<T>)
    requires |mask| == |xs|
    ensures |r| == CountTrue(mask)
  {
    if |xs| == 0 then []
    else
      var n := |xs| - 1;
      Masked(xs[..n], mask[..n]) + (if mask[n] then [xs[n]] else [])
  }

  /** Boolean-mask selection keeps the elements whose mask entry holds, in
      their original order: it is `xs` gathered at `np.where(mask)[0]`. */
  lemma {:induction false} MaskedIsGather<T>(xs: seq<T>, mask: seq<bool>)
    requires |mask| == |xs|
    ensures Masked(xs, mask) == Gather(xs, Where(mask))
  {
    if |xs| > 0 {
      var n := |xs| - 1;
      MaskedIsGather(xs[..n], mask[..n]);
      var w := Where(mask[..n]);
      assert Where(mask) == w + (if mask[n] then [n] else []);
      assert Gather(xs[..n], w) == Gather(xs, w);
    }
  }

  /** `xs[idx] = vals`, written one position after the other. */
  function Scatter<T>(xs: seq<T>, idx: seq<nat>, vals: seq<T>): (r: seq<T>)
    requires |vals| == |idx| && InBounds(idx, |xs|)
    ensures |r| == |xs|
    ensures forall i :: 0 <= i < |xs| && i !in idx ==> r[i] == xs[i]
  {
    if |idx| == 0 then xs
    else
      var n := |idx| - 1;
      assert forall i :: i in idx[..n] ==> i in idx;
      Scatter(xs, idx[..n], vals[..n])[idx[n] := vals[n]]
  }

  /** With ascending positions, every written position holds its own value. */
  lemma {:induction false} ScatterAt<T>(xs: seq<T>, idx: seq<nat>, vals: seq<T>, k: nat)
    requires |vals| == |idx| && InBounds(idx, |xs|) && Increasing(idx)
    requires k < |idx|
    ensures Scatter(xs, idx, vals)[idx[k]] == vals[k]
  {
    var n := |idx| - 1;
    if k < n {
      ScatterAt(xs, idx[..n], vals[..n], k);
    }
  }

  /** Selecting with a mask that holds everywhere keeps every element. */
  lemma {:induction false} MaskedAll<T>(xs: seq<T>, mask: seq<bool>)
    requires |mask| == |xs|
    requires forall i :: 0 <= i < |mask| ==> mask[i]
    ensures Masked(xs, mask) == xs
  {
    if |xs| > 0 {
      var n := |xs| - 1;
      MaskedAll(xs[..n], mask[..n]);
      calc {
        Masked(xs, mask);
        Masked(xs[..n], mask[..n]) + [xs[n]];
        xs[..n] + [xs[n]];
        xs;
      }
    }
  }

  function Or(m1: seq<bool>, m2: seq<bool>): (m: seq<bool>)
    requires |m1| == |m2|
    ensures |m| == |m1|
  {
    seq(|m1|, i requires 0 <= i < |m1| => m1[i] || m2[i])
  }

  /** Selecting with the union of two disjoint masks selects, up to order,
      what the two masks select separately. */
  lemma {:induction false} MaskedDisjointUnion<T>(xs: seq<T>, m1: seq<bool>, m2: seq<bool>)
    requires |m1| == |xs| && |m2| == |xs|
    requires forall i :: 0 <= i < |xs| ==> !(m1[i] && m2[i])
    ensures multiset(Masked(xs, Or(m1, m2))) == multiset(Masked(xs, m1)) + multiset(Masked(xs, m2))
  {
    if |xs| > 0 {
      var n := |xs| - 1;
      assert Or(m1, m2)[..n] == Or(m1[..n], m2[..n]);
      MaskedDisjointUnion(xs[..n], m1[..n], m2[..n]);
    }
  }

  /** Selecting from an ascending sequence keeps it ascending, and an element
      is kept exactly when its mask entry holds. */
  lemma {:induction false} MaskedIncreasing(u: seq<nat>, mask: seq<bool>)
    requires |mask| == |u| && Increasing(u)
    ensures Increasing(Masked(u, mask))
    ensures forall x :: x in Masked(u, mask) ==> x in u
    ensures forall k :: 0 <= k < |u| ==> (u[k] in Masked(u, mask) <==> mask[k])
  {
    if |u| > 0 {
      var n := |u| - 1;
      var prefix := Masked(u[..n], mask[..n]);
      MaskedIncreasing(u[..n], mask[..n]);
      assert Masked(u, mask) == prefix + (if mask[n] then [u[n]] else []);
      assert forall x :: x in u[..n] ==> x < u[n];
      if mask[n] {
        var r := prefix + [u[n]];
        forall i, j | 0 <= i < j < |r| ensures r[i] < r[j] {
          if j == |r| - 1 { assert r[i] in prefix; }
        }
      }
    }
  }

  /** An ascending sequence has as many elements as values. */
  lemma {:induction false} IncreasingCardinality(s: seq<int>)
    requires Increasing(s)
    ensures |set y | y in s| == |s|
  {
    if s != [] {
      var n := |s| - 1;
      IncreasingCardinality(s[..n]);
      assert (set y | y in s) == (set y | y in s[..n]) + {s[n]} by {
        assert s == s[..n] + [s[n]];
      }
      assert s[n] !in s[..n];
    }
  }

  /** Selecting with a mask that holds nowhere selects nothing. */
  lemma {:induction false} MaskedNone<T>(xs: seq<T>, mask: seq<bool>)
    requires |mask| == |xs|
    requires forall i :: 0 <= i < |mask| ==> !mask[i]
    ensures Masked(xs, mask) == []
  {
    if |xs| > 0 {
      MaskedNone(xs[..|xs| - 1], mask[..|xs| - 1]);
    }
  }

  /** `(ids == v).sum()`: the mask holds once per occurrence of `v`. */
  lemma {:induction false} EqMaskCount<T>(ids: seq<T>, v: T)
    ensures CountTrue(EqMask(ids, v)) == multiset(ids)[v]
  {
    if |ids| > 0 {
      var n := |ids| - 1;
      assert EqMask(ids, v)[..n] == EqMask(ids[..n], v);
      EqMaskCount(ids[..n], v);
      assert ids == ids[..n] + [ids[n]];
    }
  }

  /** Every row of the matrix has `w` columns. */
  predicate Rectangular<T>(m: seq<seq<T>>, w: nat)
  {
    forall i :: 0 <= i < |m| ==> |m[i]| == w
  }

  /** `m[:, c]`. */
  function Column<T>(m: seq<seq<T>>, c: nat): (col: seq<T>)
    requires forall i :: 0 <= i < |m| ==> c < |m[i]|
    ensures |col| == |m|
  {
    seq(|m|, i requires 0 <= i < |m| => m[i][c])
  }

  /** The 2-D array whose columns are the given vectors of length `n`. */
  function FromColumns<T>(cols: seq<seq<T>>, n: nat): (m: seq<seq<T>>)
    requires forall c :: 0 <= c < |cols| ==> |cols[c]| == n
    ensures |m| == n
  {
    seq(n, i requires 0 <= i < n => seq(|cols|, c requires 0 <= c < |cols| => cols[c][i]))
  }

  /** Reading the columns of `FromColumns` back gives the vectors it was built from. */
  lemma FromColumnsColumns<T>(cols: seq<seq<T>>, n: nat)
    requires forall c :: 0 <= c < |cols| ==> |cols[c]| == n
    ensures Rectangular(FromColumns(cols, n), |cols|)
    ensures forall c :: 0 <= c < |cols| ==> Column(FromColumns(cols, n), c) == cols[c]
  {
  }

  /** `np.hstack([a, b])` for two matrices with the same number of rows. */
  function HStack<T>(a: seq<seq<T>>, b: seq<seq<T>>): (m: seq<seq<T>>)
    requires |a| == |b|
    ensures |m| == |a|
  {
    seq(|a|, i requires 0 <= i < |a| => a[i] + b[i])
  }

  /** Stacking side by side puts the columns of `a` first and those of `b`
      after them, shifted by the width of `a`. */
  lemma HStackColumns<T>(a: seq<seq<T>>, b: seq<seq<T>>, wa: nat, wb: nat)
    requires |a| == |b| && Rectangular(a, wa) && Rectangular(b, wb)
    ensures Rectangular(HStack(a, b), wa + wb)
    ensures forall c :: 0 <= c < wa ==> Column(HStack(a, b), c) == Column(a, c)
    ensures forall c :: 0 <= c < wb ==> Column(HStack(a, b), wa + c) == Column(b, c)
  {
  }
}
