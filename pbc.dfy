/** `_load_pbc_dataset` (dsm/datasets.py): the PBC reader. The CSV read,
    one-hot encoding, imputation and scaling are not modelled; their results
    enter as inputs. What is modelled is the column layout, the derived age,
    time and event columns and the per-subject regrouping of sequential mode. */
module Pbc {
  import opened SurvivalData
  import opened ArrayOps

  /** The columns of one PBC row that the reader uses beyond the categorical ones. */
  datatype PbcRecord = PbcRecord(
    id: int,
    serBilir: Cell, serChol: Cell, albumin: Cell, alkaline: Cell,
    sgot: Cell, platelets: Cell, prothrombin: Cell,
    age: Cell, years: Cell, year: Cell,
    status2: int)

  /** The numeric block, in the order the reader lists its columns. */
  function NumericBlock(r: PbcRecord): (b: seq<Cell>)
  {
    [r.serBilir, r.serChol, r.albumin, r.alkaline, r.sgot, r.platelets, r.prothrombin]
  }

  /** `dat_num.values`: the seven numeric columns, one vector per column. */
  function NumericColumns(data: seq<PbcRecord>): (cols: seq<seq<Cell>>)
    ensures |cols| == 7 && forall c :: 0 <= c < 7 ==> |cols[c]| == |data|
  {
    seq(7, c requires 0 <= c < 7 =>
      seq(|data|, i requires 0 <= i < |data| => NumericBlock(data[i])[c]))
  }

  /** `data['age'] + data['years']`: the age at the visit. */
  function AgeColumn(data: seq<PbcRecord>): (age: seq<Cell>)
    ensures |age| == |data|
  {
    seq(|data|, i requires 0 <= i < |data| => Plus(data[i].age, data[i].years))
  }

  /** `np.hstack([x1, x2, x3])` before imputation: the one-hot block, the
      numeric block, and the age column, side by side. */
  function Features(data: seq<PbcRecord>, dummies: Matrix): (x: seq<seq<Cell>>)
    requires |dummies| == |data|
    ensures |x| == |data|
  {
    var n := |data|;
    HStack(HStack(AsCells(dummies), FromColumns(NumericColumns(data), n)),
           FromColumns([AgeColumn(data)], n))
  }

  /** One record's covariates, read across: its one-hot row, its seven
      numeric values in the listed order, then age + years. */
  function FeatureRow(r: PbcRecord, dummies: seq<real>): (row: seq<Cell>)
    ensures |row| == |dummies| + 8
  {
    Present(dummies) + NumericBlock(r) + [Plus(r.age, r.years)]
  }

  /** Row `i` of the column-wise stacked matrix is record `i`'s covariates. */
  lemma FeaturesByRow(data: seq<PbcRecord>, dummies: Matrix, i: nat)
    requires |dummies| == |data| && i < |data|
    ensures Features(data, dummies)[i] == FeatureRow(data[i], dummies[i])
  {
    var n := |data|;
    assert FromColumns(NumericColumns(data), n)[i] == NumericBlock(data[i]);
    assert FromColumns([AgeColumn(data)], n)[i] == [Plus(data[i].age, data[i].years)];
  }

  /** With one-hot rows of width `w` the matrix has `w + 8` columns: the
      `w` one-hot columns, column `w + c` is the `c`-th numeric column, and
      column `w + 7` is the age column. */
  lemma FeaturesByColumn(data: seq<PbcRecord>, dummies: Matrix, w: nat)
    requires |dummies| == |data| && Rectangular(dummies, w)
    ensures var x := Features(data, dummies);
      Rectangular(x, w + 8) &&
      (forall c :: 0 <= c < w ==> Column(x, c) == Column(AsCells(dummies), c)) &&
      (forall c :: 0 <= c < 7 ==> Column(x, w + c) == NumericColumns(data)[c]) &&
      Column(x, w + 7) == AgeColumn(data)
  {
    var n := |data|;
    var x1, x2, x3 := AsCells(dummies), FromColumns(NumericColumns(data), n), FromColumns([AgeColumn(data)], n);
    assert Rectangular(x1, w);
    FromColumnsColumns(NumericColumns(data), n);
    FromColumnsColumns([AgeColumn(data)], n);
    HStackColumns(x1, x2, w, 7);
    HStackColumns(HStack(x1, x2), x3, w + 7, 1);
    assert Column(x3, 0) == AgeColumn(data);
  }

  /** `data['years'] - data['year']`: the time since the visit, one per record. */
  function Times(data: seq<PbcRecord>): (t: seq<Cell>)
    ensures |t| == |data|
  {
    seq(|data|, i requires 0 <= i < |data| => Minus(data[i].years, data[i].year))
  }

  function Events(data: seq<PbcRecord>): (e: seq<int>)
    ensures |e| == |data|
  {
    seq(|data|, i requires 0 <= i < |data| => data[i].status2)
  }

  function Ids(data: seq<PbcRecord>): (ids: seq<int>)
    ensures |ids| == |data|
  {
    seq(|data|, i requires 0 <= i < |data| => data[i].id)
  }

  /** Adds `v` to an ascending sequence of distinct values. */
  function Insert(s: seq<int>, v: int): (r: seq<int>)
    requires Increasing(s)
    ensures Increasing(r)
    ensures forall y :: y in r <==> y in s || y == v
  {
    if s == [] then [v]
    else if v < s[0] then
      assert forall y :: y in s ==> s[0] <= y;
      [v] + s
    else if v == s[0] then s
    else
      var tail := Insert(s[1..], v);
      assert forall y :: y in s[1..] ==> s[0] < y;
      assert forall y :: y in s <==> y == s[0] || y in s[1..] by {
        assert s == [s[0]] + s[1..];
      }
      assert forall y :: y in tail ==> s[0] < y;
      var r := [s[0]] + tail;
      assert Increasing(r) by {
        forall i, j | 0 <= i < j < |r| ensures r[i] < r[j] {
          if i == 0 { assert r[j] in tail; } else { assert r[i] == tail[i - 1] && r[j] == tail[j - 1]; }
        }
      }
      r
  }

  /** `sorted(list(set(ids)))`: the distinct ids, ascending. */
  function SortedDistinct(ids: seq<int>): (r: seq<int>)
    ensures Increasing(r)
    ensures forall y :: y in r <==> y in ids
  {
    if ids == [] then []
    else
      var n := |ids| - 1;
      assert forall y :: y in ids <==> y in ids[..n] || y == ids[n] by {
        assert ids == ids[..n] + [ids[n]];
      }
      Insert(SortedDistinct(ids[..n]), ids[n])
  }

  /** The rows of the values belonging to each id in `order`, one group per id. */
  function Groups<T>(vals: seq<T>, ids: seq<int>, order: seq<int>): (g: seq<seq<T>>)
    requires |vals| == |ids|
    ensures |g| == |order|
  {
    seq(|order|, k requires 0 <= k < |order| => Masked(vals, EqMask(ids, order[k])))
  }

  /** Sequential mode: for each distinct id in ascending order, the slice
      `vals[ids == id]`. Each group has one entry per occurrence of its id,
      so none is empty. */
  function GroupBy<T>(vals: seq<T>, ids: seq<int>): (g: seq<seq<T>>)
    requires |vals| == |ids|
    ensures |g| == |SortedDistinct(ids)|
    ensures forall k :: 0 <= k < |g| ==> 0 < |g[k]| == multiset(ids)[SortedDistinct(ids)[k]]
  {
    var order := SortedDistinct(ids);
    var g := Groups(vals, ids, order);
    assert forall k :: 0 <= k < |g| ==> 0 < |g[k]| == multiset(ids)[order[k]] by {
      forall k | 0 <= k < |g| ensures 0 < |g[k]| == multiset(ids)[order[k]] {
        EqMaskCount(ids, order[k]);
        assert order[k] in ids;
      }
    }
    g
  }

  /** There is one group per distinct subject id. */
  lemma GroupCount<T>(vals: seq<T>, ids: seq<int>)
    requires |vals| == |ids|
    ensures |GroupBy(vals, ids)| == |set y | y in ids|
  {
    var order := SortedDistinct(ids);
    IncreasingCardinality(order);
    assert (set y | y in order) == (set y | y in ids);
  }

  /** Group `k` holds exactly the rows of subject `SortedDistinct(ids)[k]`,
      in their original order, and is never empty. Slices of two aligned
      columns have equal lengths. */
  lemma GroupIsSubject<T, U>(vals: seq<T>, other: seq<U>, ids: seq<int>, k: nat)
    requires |vals| == |ids| && |other| == |ids|
    requires k < |SortedDistinct(ids)|
    ensures var id, w := SortedDistinct(ids)[k], Where(EqMask(ids, SortedDistinct(ids)[k]));
      GroupBy(vals, ids)[k] == Gather(vals, w) &&
      Increasing(w) &&
      (forall i :: 0 <= i < |ids| ==> (i in w <==> ids[i] == id)) &&
      0 < |GroupBy(vals, ids)[k]| == |GroupBy(other, ids)[k]|
  {
    var order := SortedDistinct(ids);
    var m := EqMask(ids, order[k]);
    MaskedIsGather(vals, m);
    assert order[k] in ids;
    var i :| 0 <= i < |ids| && ids[i] == order[k];
    assert i in Where(m);
  }

  function Concat<T>(gs: seq<seq<T>>): (r: seq<T>)
  {
    if gs == [] then [] else Concat(gs[..|gs| - 1]) + gs[|gs| - 1]
  }

  function MemberMask(ids: seq<int>, order: seq<int>): (m: seq<bool>)
    ensures |m| == |ids|
  {
    seq(|ids|, i requires 0 <= i < |ids| => ids[i] in order)
  }

  /** Joining the groups of ascending distinct ids gives, up to order, the rows whose
      id is one of them. */
  lemma {:induction false} ConcatGroups<T>(vals: seq<T>, ids: seq<int>, order: seq<int>)
    requires |vals| == |ids| && Increasing(order)
    ensures multiset(Concat(Groups(vals, ids, order))) == multiset(Masked(vals, MemberMask(ids, order)))
  {
    if order == [] {
      MaskedNone(vals, MemberMask(ids, order));
    } else {
      var n := |order| - 1;
      var v := order[n];
      var gs := Groups(vals, ids, order);
      ConcatGroups(vals, ids, order[..n]);
      assert gs[..n] == Groups(vals, ids, order[..n]);
      assert Concat(gs) == Concat(gs[..n]) + Masked(vals, EqMask(ids, v));
      MemberMaskSnoc(ids, order);
      MaskedDisjointUnion(vals, MemberMask(ids, order[..n]), EqMask(ids, v));
    }
  }

  /** Adding a new last id to `order` adds its rows, disjointly, to the member mask. */
  lemma MemberMaskSnoc(ids: seq<int>, order: seq<int>)
    requires order != [] && Increasing(order)
    ensures var n := |order| - 1;
      MemberMask(ids, order) == Or(MemberMask(ids, order[..n]), EqMask(ids, order[n])) &&
      forall i :: 0 <= i < |ids| ==> !(MemberMask(ids, order[..n])[i] && EqMask(ids, order[n])[i])
  {
    var n := |order| - 1;
    assert order == order[..n] + [order[n]];
    assert order[n] !in order[..n];
  }

  /** Every row lands in exactly one group: joining the groups of sequential
      mode is a permutation of the flat rows. */
  lemma GroupByPermutes<T>(vals: seq<T>, ids: seq<int>)
    requires |vals| == |ids|
    ensures multiset(Concat(GroupBy(vals, ids))) == multiset(vals)
  {
    var order := SortedDistinct(ids);
    ConcatGroups(vals, ids, order);
    MaskedAll(vals, MemberMask(ids, order));
  }

  /** The sequential branch: one slice of `x`, `t` and `e` per subject id,
      appended in ascending id order. */
  method GroupBySubject(x: Matrix, t: seq<Cell>, e: seq<int>, ids: seq<int>)
    returns (xs: seq<Matrix>, ts: seq<seq<Cell>>, es: seq<seq<int>>)
    requires |x| == |ids| && |t| == |ids| && |e| == |ids|
    ensures xs == GroupBy(x, ids) && ts == GroupBy(t, ids) && es == GroupBy(e, ids)
  {
    var order := SortedDistinct(ids);
    xs, ts, es := [], [], [];
    for k := 0 to |order|
      invariant xs == Groups(x, ids, order[..k])
      invariant ts == Groups(t, ids, order[..k])
      invariant es == Groups(e, ids, order[..k])
    {
      var same := EqMask(ids, order[k]);
      xs := xs + [Masked(x, same)];
      ts := ts + [Masked(t, same)];
      es := es + [Masked(e, same)];
    }
    assert order[..|order|] == order;
  }

  /** The PBC reader with its inputs: the table, its one-hot block and the
      impute-then-scale transform, which keeps the row count. */
  function LoadPbc(data: seq<PbcRecord>, dummies: seq<seq<real>>,
                   standardize: seq<seq<Cell>> -> Matrix, sequential: bool): (r: Triple)
    requires |dummies| == |data| && |standardize(Features(data, dummies))| == |data|
    ensures r.Flat? <==> !sequential
    ensures r.Flat? ==> |r.x| == |r.t| == |r.e| == |data|
    ensures r.Sequences? ==> |r.xs| == |r.ts| == |r.es| == |set i | i in Ids(data)|
    ensures r.Sequences? ==> forall k :: 0 <= k < |r.xs| ==> 0 < |r.xs[k]| == |r.ts[k]| == |r.es[k]|
  {
    var x := standardize(Features(data, dummies));
    if !sequential then Flat(x, Times(data), Events(data))
    else
      var ids := Ids(data);
      GroupCount(x, ids);
      Sequences(GroupBy(x, ids), GroupBy(Times(data), ids), GroupBy(Events(data), ids))
  }
}
