/** `load_dataset` (dsm/datasets.py): routes a dataset name to its reader.
    The bundled tables, their one-hot blocks and the impute-then-scale
    transform are the resources the readers consume. */
module Datasets {
  import opened SurvivalData
  import Pbc
  import Support

  datatype Resources = Resources(
    pbc: seq<Pbc.PbcRecord>, pbcDummies: seq<seq<real>>,
    support: seq<Support.SupportRecord>, supportDummies: seq<seq<real>>,
    standardize: seq<seq<Cell>> -> Matrix)

  /** The PBC resources fit together: one one-hot row per record, and the
      transform keeps the row count. */
  predicate PbcReady(res: Resources)
  {
    |res.pbcDummies| == |res.pbc| &&
    |res.standardize(Pbc.Features(res.pbc, res.pbcDummies))| == |res.pbc|
  }

  predicate SupportReady(res: Resources)
  {
    |res.supportDummies| == |res.support| &&
    |res.standardize(Support.Features(res.support, res.supportDummies))| == |res.support|
  }

  /** What `load_dataset` hands back: the loaded arrays, or, for a name it
      does not know, a `NotImplementedError` object that is returned rather
      than raised. */
  datatype Outcome = Dataset(data: Triple) | NotImplementedError(message: string)

  /** `kwargs.get('sequential', False)`, by truthiness. */
  function SequentialOption(kwargs: map<string, bool>): (sequential: bool)
    ensures "sequential" !in kwargs ==> !sequential
    ensures "sequential" in kwargs ==> sequential == kwargs["sequential"]
  {
    if "sequential" in kwargs then kwargs["sequential"] else false
  }

  function LoadDataset(res: Resources, dataset: string := "SUPPORT",
                       kwargs: map<string, bool> := map[]): (r: Outcome)
    requires dataset == "SUPPORT" ==> SupportReady(res)
    requires dataset == "PBC" ==> PbcReady(res)
    ensures r.NotImplementedError? <==> dataset != "SUPPORT" && dataset != "PBC"
    ensures r.Dataset? && r.data.Sequences? <==> dataset == "PBC" && SequentialOption(kwargs)
    ensures dataset == "SUPPORT" ==>
      r == Dataset(Support.LoadSupport(res.support, res.supportDummies, res.standardize))
    ensures dataset == "PBC" ==>
      r == Dataset(Pbc.LoadPbc(res.pbc, res.pbcDummies, res.standardize, SequentialOption(kwargs)))
  {
    if dataset == "SUPPORT" then
      Dataset(Support.LoadSupport(res.support, res.supportDummies, res.standardize))
    else if dataset == "PBC" then
      Dataset(Pbc.LoadPbc(res.pbc, res.pbcDummies, res.standardize, SequentialOption(kwargs)))
    else
      NotImplementedError("Dataset " + dataset + " not implemented.")
  }

  /** With no arguments the SUPPORT dataset is loaded, and SUPPORT ignores
      every keyword argument. */
  lemma DefaultIsSupport(res: Resources, kwargs: map<string, bool>)
    requires SupportReady(res)
    ensures LoadDataset(res) == LoadDataset(res, "SUPPORT", kwargs)
    ensures LoadDataset(res) == Dataset(Support.LoadSupport(res.support, res.supportDummies, res.standardize))
  {
  }

  /** PBC is flat unless `sequential` is passed and true. */
  lemma PbcDefaultsToFlat(res: Resources, kwargs: map<string, bool>)
    requires PbcReady(res) && "sequential" !in kwargs
    ensures LoadDataset(res, "PBC", kwargs) == LoadDataset(res, "PBC", map["sequential" := false])
    ensures LoadDataset(res, "PBC", kwargs).data.Flat?
  {
  }

  /** An unknown name yields, without touching any resource, the error
      value whose message names the dataset. */
  lemma UnknownNameReturnsError(res: Resources, dataset: string, kwargs: map<string, bool>)
    requires dataset != "SUPPORT" && dataset != "PBC"
    ensures var r := LoadDataset(res, dataset, kwargs);
      r.NotImplementedError? &&
      r.message[..8] == "Dataset " &&
      r.message[8..8 + |dataset|] == dataset &&
      r.message[8 + |dataset|..] == " not implemented."
  {
  }

  /** Sequential PBC has one entry per distinct subject id, and joining its
      entries gives back, up to order, the rows, times and events of flat PBC. */
  lemma SequentialRegroupsFlat(res: Resources)
    requires PbcReady(res)
    ensures var f := LoadDataset(res, "PBC").data;
      var s := LoadDataset(res, "PBC", map["sequential" := true]).data;
      f.Flat? && s.Sequences? &&
      |s.xs| == |set i | i in Pbc.Ids(res.pbc)| &&
      multiset(Pbc.Concat(s.xs)) == multiset(f.x) &&
      multiset(Pbc.Concat(s.ts)) == multiset(f.t) &&
      multiset(Pbc.Concat(s.es)) == multiset(f.e)
  {
    var ids := Pbc.Ids(res.pbc);
    var f := LoadDataset(res, "PBC").data;
    Pbc.GroupByPermutes(f.x, ids);
    Pbc.GroupByPermutes(f.t, ids);
    Pbc.GroupByPermutes(f.e, ids);
  }
}
