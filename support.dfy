/** `_load_support_dataset` (dsm/datasets.py): the SUPPORT reader. The CSV
    read, one-hot encoding, imputation and scaling enter as inputs; what is
    modelled is the column layout and the final removal of rows whose time
    is NaN. */
module Support {
  import opened SurvivalData
  import opened ArrayOps

  /** The columns of one SUPPORT row that the reader uses beyond the categorical ones. */
  datatype SupportRecord = SupportRecord(
    age: Cell, numCo: Cell, meanbp: Cell, wblc: Cell, hrt: Cell, resp: Cell,
    temp: Cell, pafi: Cell, alb: Cell, bili: Cell, crea: Cell, sod: Cell,
    ph: Cell, glucose: Cell, bun: Cell, urine: Cell, adlp: Cell, adls: Cell,
    dTime: Cell, death: int)

  /** The eighteen numeric columns, in the order the reader lists them. */
  function NumericBlock(r: SupportRecord): (b: seq<Cell>)
  {
    [r.age, r.numCo, r.meanbp, r.wblc, r.hrt, r.resp, r.temp, r.pafi, r.alb,
     r.bili, r.crea, r.sod, r.ph, r.glucose, r.bun, r.urine, r.adlp, r.adls]
  }

  /** `x1`: the eighteen numeric columns, one vector per column. */
  function NumericColumns(data: seq<SupportRecord>): (cols: seq<seq<Cell>>)
    ensures |cols| == 18 && forall c :: 0 <= c < 18 ==> |cols[c]| == |data|
  {
    seq(18, c requires 0 <= c < 18 =>
      seq(|data|, i requires 0 <= i < |data| => NumericBlock(data[i])[c]))
  }

  /** `np.concatenate([x1, x2], axis=1)` before imputation: the numeric
      block, then the one-hot block, side by side. */
  function Features(data: seq<SupportRecord>, dummies: Matrix): (x: seq<seq<Cell>>)
    requires |dummies| == |data|
    ensures |x| == |data|
  {
    HStack(FromColumns(NumericColumns(data), |data|), AsCells(dummies))
  }

  /** One record's covariates, read across: its eighteen numeric values in
      the listed order, then its one-hot row. */
  function FeatureRow(r: SupportRecord, dummies: seq<real>): (row: seq<Cell>)
    ensures |row| == 18 + |dummies|
  {
    NumericBlock(r) + Present(dummies)
  }

  /** Row `i` of the column-wise concatenated matrix is record `i`'s covariates. */
  lemma FeaturesByRow(data: seq<SupportRecord>, dummies: Matrix, i: nat)
    requires |dummies| == |data| && i < |data|
    ensures Features(data, dummies)[i] == FeatureRow(data[i], dummies[i])
  {
    assert FromColumns(NumericColumns(data), |data|)[i] == NumericBlock(data[i]);
  }

  /** With one-hot rows of width `w` the matrix has `18 + w` columns: column
      `c < 18` is the `c`-th numeric column and column `18 + c` is the
      `c`-th one-hot column. */
  lemma FeaturesByColumn(data: seq<SupportRecord>, dummies: Matrix, w: nat)
    requires |dummies| == |data| && Rectangular(dummies, w)
    ensures var x := Features(data, dummies);
      Rectangular(x, 18 + w) &&
      (forall c :: 0 <= c < 18 ==> Column(x, c) == NumericColumns(data)[c]) &&
      (forall c :: 0 <= c < w ==> Column(x, 18 + c) == Column(AsCells(dummies), c))
  {
    var x1, x2 := FromColumns(NumericColumns(data), |data|), AsCells(dummies);
    assert Rectangular(x2, w);
    FromColumnsColumns(NumericColumns(data), |data|);
    HStackColumns(x1, x2, 18, w);
  }

  /** `~np.isnan(t)`. */
  function NotNan(t: seq<Cell>): (m: seq<bool>)
    ensures |m| == |t|
    ensures forall i :: 0 <= i < |t| ==> (m[i] <==> t[i].Some?)
  {
    seq(|t|, i requires 0 <= i < |t| => t[i].Some?)
  }

  /** `(~np.isnan(t)).sum()`: every entry but the NaN ones. */
  lemma {:induction false} NotNanCount(t: seq<Cell>)
    ensures CountTrue(NotNan(t)) == |t| - multiset(t)[None]
  {
    if |t| > 0 {
      var n := |t| - 1;
      assert NotNan(t)[..n] == NotNan(t[..n]);
      NotNanCount(t[..n]);
      assert t == t[..n] + [t[n]];
    }
  }

  /** `x[remove], t[remove], e[remove]` with `remove = ~np.isnan(t)`. */
  function DropMissingTimes(x: Matrix, t: seq<Cell>, e: seq<int>): (r: Triple)
    requires |x| == |t| && |e| == |t|
    ensures r.Flat?
    ensures |r.x| == |r.t| == |r.e| == CountTrue(NotNan(t))
    ensures forall k :: 0 <= k < |r.t| ==> r.t[k].Some?
  {
    var keep := NotNan(t);
    MaskedIsGather(t, keep);
    Flat(Masked(x, keep), Masked(t, keep), Masked(e, keep))
  }

  /** The filter keeps exactly the rows whose time is present, in their
      original order, and keeps `x`, `t` and `e` aligned: output row `k` is
      input row `w[k]` in all three, for one ascending `w` that lists every
      row with a time. */
  lemma DropMissingTimesKeepsTimedRows(x: Matrix, t: seq<Cell>, e: seq<int>)
    requires |x| == |t| && |e| == |t|
    ensures var r, w := DropMissingTimes(x, t, e), Where(NotNan(t));
      Increasing(w) &&
      (forall i :: 0 <= i < |t| ==> (i in w <==> t[i].Some?)) &&
      r.x == Gather(x, w) && r.t == Gather(t, w) && r.e == Gather(e, w)
  {
    var keep := NotNan(t);
    MaskedIsGather(x, keep);
    MaskedIsGather(t, keep);
    MaskedIsGather(e, keep);
  }

  /** The SUPPORT reader with its inputs: the table, its one-hot block and
      the impute-then-scale transform, which keeps the row count. */
  function LoadSupport(data: seq<SupportRecord>, dummies: seq<seq<real>>,
                       standardize: seq<seq<Cell>> -> Matrix): (r: Triple)
    requires |dummies| == |data| && |standardize(Features(data, dummies))| == |data|
    ensures r.Flat? && |r.x| == |r.t| == |r.e| <= |data|
  {
    var x := standardize(Features(data, dummies));
    var t := seq(|data|, i requires 0 <= i < |data| => data[i].dTime);
    var e := seq(|data|, i requires 0 <= i < |data| => data[i].death);
    NotNanCount(t);
    DropMissingTimes(x, t, e)
  }

  /** The SUPPORT reader returns flat arrays of equal length, none of whose
      times is missing, one row per record with a time. */
  lemma LoadSupportShape(data: seq<SupportRecord>, dummies: seq<seq<real>>,
                         standardize: seq<seq<Cell>> -> Matrix)
    requires |dummies| == |data| && |standardize(Features(data, dummies))| == |data|
    ensures var r := LoadSupport(data, dummies, standardize);
      r.Flat? && |r.x| == |r.t| == |r.e| &&
      (forall k :: 0 <= k < |r.t| ==> r.t[k].Some?) &&
      |r.t| == |set i: int | 0 <= i < |data| && data[i].dTime.Some?|
  {
    var t := seq(|data|, i requires 0 <= i < |data| => data[i].dTime);
    var w := Where(NotNan(t));
    assert (set i: int | 0 <= i < |data| && data[i].dTime.Some?) == (set y: int | y in w);
    IncreasingCardinality(w);
  }
}
