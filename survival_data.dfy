/** Value types shared by the dataset loaders: a numeric cell that may be
    missing (NaN), covariate matrices, and the (x, t, e) triple a loader
    returns, flat or grouped per subject. */
module SurvivalData {

  datatype Option<+T> = None | Some(value: T)

  /** One float of a pandas column: `None` stands for NaN. */
  type Cell = Option<real>

  /** A covariate matrix after imputation and standardisation: one row per observation. */
  type Matrix = seq<seq<real>>

  /** What a loader returns: flat aligned arrays, or one array per subject. */
  datatype Triple =
    | Flat(x: Matrix, t: seq<Cell>, e: seq<int>)
    | Sequences(xs: seq<Matrix>, ts: seq<seq<Cell>>, es: seq<seq<int>>)

  /** Float addition; NaN in either operand gives NaN. */
  function Plus(a: Cell, b: Cell): (r: Cell)
  {
    if a.Some? && b.Some? then Some(a.value + b.value) else None
  }

  /** Float subtraction; NaN in either operand gives NaN. */
  function Minus(a: Cell, b: Cell): (r: Cell)
  {
    if a.Some? && b.Some? then Some(a.value - b.value) else None
  }

  /** A row of numbers as cells, none of them missing. */
  function Present(v: seq<real>): (c: seq<Cell>)
    ensures |c| == |v|
    ensures forall i :: 0 <= i < |v| ==> c[i] == Some(v[i])
  {
    seq(|v|, i requires 0 <= i < |v| => Some(v[i]))
  }

  /** The `.values` of a one-hot frame, as cells of a float matrix. */
  function AsCells(m: Matrix): (c: seq<seq<Cell>>)
    ensures |c| == |m|
    ensures forall i :: 0 <= i < |m| ==> c[i] == Present(m[i])
  {
    seq(|m|, i requires 0 <= i < |m| => Present(m[i]))
  }
}
