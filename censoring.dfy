/** `increase_censoring` (dsm/datasets.py): turns a random subset of the
    observed events into censored ones at an earlier, resampled time.
    The two random draws of the source are inputs here: `mask` holds the
    Bernoulli outcome for each uncensored index, in index order, and
    `draws` holds the uniform sample taken for each switched index. */
module Censoring {
  import opened ArrayOps

  /** `np.where(e == 1)[0]`: the indices of observed events, ascending. */
  function Uncensored(e: seq<int>): (r: seq<nat>)
    ensures Increasing(r)
    ensures forall k :: 0 <= k < |r| ==> r[k] < |e| && e[r[k]] == 1
    ensures forall i :: 0 <= i < |e| && e[i] == 1 ==> i in r
  {
    Where(EqMask(e, 1))
  }

  /** `uncens[mask]`: the indices to switch. Exactly the uncensored indices
      whose Bernoulli outcome is true, ascending. */
  function Switched(e: seq<int>, mask: seq<bool>): (r: seq<nat>)
    requires |mask| == |Uncensored(e)|
    ensures Increasing(r)
    ensures forall k :: 0 <= k < |r| ==> r[k] < |e| && e[r[k]] == 1
    ensures forall k :: 0 <= k < |mask| ==> (Uncensored(e)[k] in r <==> mask[k])
  {
    var u := Uncensored(e);
    var r := Masked<nat>(u, mask);
    MaskedIncreasing(u, mask);
    assert forall k :: 0 <= k < |r| ==> r[k] < |e| && e[r[k]] == 1 by {
      forall k | 0 <= k < |r| ensures r[k] < |e| && e[r[k]] == 1 {
        assert r[k] in u;
        var j :| 0 <= j < |u| && u[j] == r[k];
      }
    }
    r
  }

  /** Every switched index lies inside `t`, and the uniform samples are
      taken over `[1, t)` for each of them. */
  predicate ValidDraws(e: seq<int>, t: seq<real>, mask: seq<bool>, draws: seq<real>)
    requires |mask| == |Uncensored(e)|
  {
    var sw := Switched(e, mask);
    InBounds(sw, |t|) && |draws| == |sw| &&
    forall k :: 0 <= k < |sw| ==> 1.0 <= draws[k] < t[sw[k]]
  }

  function Zeros(n: nat): (z: seq<int>)
    ensures |z| == n
  {
    seq(n, _ => 0)
  }

  /** The event array after `e[toswitch] = 0`. */
  function CensoredEvents(e: seq<int>, mask: seq<bool>): (r: seq<int>)
    requires |mask| == |Uncensored(e)|
    ensures |r| == |e|
  {
    var sw := Switched(e, mask);
    Scatter(e, sw, Zeros(|sw|))
  }

  /** The time array after `t[toswitch] = newt`. */
  function CensoredTimes(e: seq<int>, t: seq<real>, mask: seq<bool>, draws: seq<real>): (r: seq<real>)
    requires |mask| == |Uncensored(e)|
    requires ValidDraws(e, t, mask, draws)
    ensures |r| == |t|
  {
    Scatter(t, Switched(e, mask), draws)
  }

  /** An index that is not an observed event keeps its event flag and its
      time; so does every position of a `t` longer than `e`. */
  lemma OnlyUncensoredChange(e: seq<int>, t: seq<real>, mask: seq<bool>, draws: seq<real>, i: nat)
    requires |mask| == |Uncensored(e)|
    requires ValidDraws(e, t, mask, draws)
    requires i < |e| ==> e[i] != 1
    ensures i < |e| ==> CensoredEvents(e, mask)[i] == e[i]
    ensures i < |t| ==> CensoredTimes(e, t, mask, draws)[i] == t[i]
  {
  }

  /** An uncensored index chosen by the mask becomes censored, at a time of
      at least 1 and below its original time. */
  lemma ChosenAreCensored(e: seq<int>, t: seq<real>, mask: seq<bool>, draws: seq<real>, k: nat)
    requires |mask| == |Uncensored(e)|
    requires ValidDraws(e, t, mask, draws)
    requires k < |mask| && mask[k]
    ensures var i := Uncensored(e)[k];
      CensoredEvents(e, mask)[i] == 0 &&
      1.0 <= CensoredTimes(e, t, mask, draws)[i] < t[i]
  {
    var i := Uncensored(e)[k];
    var sw := Switched(e, mask);
    var j :| 0 <= j < |sw| && sw[j] == i;
    ScatterAt(e, sw, Zeros(|sw|), j);
    ScatterAt(t, sw, draws, j);
  }

  /** An uncensored index the mask passes over stays an event at its original time. */
  lemma UnchosenAreKept(e: seq<int>, t: seq<real>, mask: seq<bool>, draws: seq<real>, k: nat)
    requires |mask| == |Uncensored(e)|
    requires ValidDraws(e, t, mask, draws)
    requires k < |mask| && !mask[k]
    ensures var i := Uncensored(e)[k];
      CensoredEvents(e, mask)[i] == 1 &&
      (i < |t| ==> CensoredTimes(e, t, mask, draws)[i] == t[i])
  {
  }

  /** With every Bernoulli outcome true (p = 1) no event is left: each
      observed event becomes censored and every other flag stays. */
  lemma AllChosenCensorsEverything(e: seq<int>, t: seq<real>, mask: seq<bool>, draws: seq<real>)
    requires |mask| == |Uncensored(e)|
    requires ValidDraws(e, t, mask, draws)
    requires forall k :: 0 <= k < |mask| ==> mask[k]
    ensures forall i :: 0 <= i < |e| ==>
      CensoredEvents(e, mask)[i] == (if e[i] == 1 then 0 else e[i])
  {
    forall i | 0 <= i < |e|
      ensures CensoredEvents(e, mask)[i] == (if e[i] == 1 then 0 else e[i])
    {
      if e[i] == 1 {
        var u := Uncensored(e);
        var k :| 0 <= k < |u| && u[k] == i;
        ChosenAreCensored(e, t, mask, draws, k);
      } else {
        OnlyUncensoredChange(e, t, mask, draws, i);
      }
    }
  }

  /** `a[idx] = vals` on a numpy array: the positions are written in order. */
  method AssignAt<T>(a: array<T>, idx: seq<nat>, vals: seq<T>)
    requires |vals| == |idx| && InBounds(idx, a.Length)
    modifies a
    ensures a[..] == Scatter(old(a[..]), idx, vals)
  {
    var k := 0;
    while k < |idx|
      invariant 0 <= k <= |idx|
      invariant a[..] == Scatter(old(a[..]), idx[..k], vals[..k])
    {
      assert idx[..k + 1][..k] == idx[..k] && vals[..k + 1][..k] == vals[..k];
      a[idx[k]] := vals[k];
      k := k + 1;
    }
    assert idx[..k] == idx && vals[..k] == vals;
  }

  /** The loop that builds `newt`: one sample of `np.random.uniform(1, t__)`
      per old time `t__`, the samples being supplied in `draws`. */
  method Resample(told: seq<real>, draws: seq<real>) returns (newt: seq<real>)
    requires |draws| == |told|
    requires forall k :: 0 <= k < |told| ==> 1.0 <= draws[k] < told[k]
    ensures newt == draws
    ensures forall k :: 0 <= k < |told| ==> 1.0 <= newt[k] < told[k]
  {
    newt := [];
    for j := 0 to |told|
      invariant newt == draws[..j]
    {
      newt := newt + [draws[j]];
    }
  }

  /** `increase_censoring(e, t, p)`: writes into `e` and `t` and hands the
      same two arrays back. */
  method IncreaseCensoring(e: array<int>, t: array<real>, mask: seq<bool>, draws: seq<real>)
    returns (e': array<int>, t': array<real>)
    requires |mask| == |Uncensored(e[..])|
    requires ValidDraws(e[..], t[..], mask, draws)
    modifies e, t
    ensures e' == e && t' == t
    ensures e[..] == CensoredEvents(old(e[..]), mask)
    ensures t[..] == CensoredTimes(old(e[..]), old(t[..]), mask, draws)
  {
    ghost var e0, t0 := e[..], t[..];
    var uncens := Uncensored(e[..]);
    var toswitch := Masked<nat>(uncens, mask);
    assert toswitch == Switched(e0, mask);
    assert |draws| == |toswitch|;

    AssignAt(e, toswitch, Zeros(|toswitch|));   // e[toswitch] = 0
    assert e[..] == CensoredEvents(e0, mask);
    assert t[..] == t0;

    // t_ = t[toswitch]; newt gets one uniform sample over [1, t__) per entry
    var told := Gather(t[..], toswitch);
    var newt := Resample(told, draws);

    AssignAt(t, toswitch, newt);                 // t[toswitch] = newt
    e', t' := e, t;
  }
}
