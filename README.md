# Deep Survival Machines dataset loaders: a verified model

This project models the data-preparation core of Deep Survival Machines
(`dsm/datasets.py`). That file loads two clinical survival datasets, PBC and
SUPPORT, as a triple `(x, t, e)`: covariates, times and event flags. It also
has a utility that adds synthetic right-censoring. The model covers four parts:

- `increase_censoring`: a method on two arrays that turns a chosen subset of
  observed events (`e == 1`) into censored ones (`e = 0`), each at a new time
  drawn from `[1, t)`. The method writes in place and returns the same arrays.
- The PBC reader. This covers the column layout (one-hot block, then seven
  numeric columns, then `age + years`), the time `years - year`, the event
  `status2`, and sequential mode. Sequential mode is a loop over the sorted
  distinct subject ids that collects each subject's rows of `x`, `t` and `e`.
- The SUPPORT reader. This covers the column layout (eighteen numeric
  columns, then the one-hot block) and the final step, which removes every row
  whose time is NaN from all three arrays with one mask.
- `load_dataset`: routing by name. The default name is `'SUPPORT'`, the
  default `sequential` is `False`, and an unknown name *returns* a
  `NotImplementedError` value.

Modules: `SurvivalData` holds the shared types. A NaN float is `None` in an
`Option<real>` "cell". `ArrayOps` holds the numpy primitives the source uses:
`np.where`, boolean masks, and gathering and assigning at an index array.
`Censoring`, `Pbc`, `Support` and `Datasets` follow the source's functions.
Random draws are inputs. `mask` gives one Bernoulli outcome per uncensored
index. `draws` gives one uniform sample per switched index.

Two behaviours of the source are modelled as written:
- For an unknown dataset name, `load_dataset` returns a `NotImplementedError`
  value and does not raise it (`Datasets.UnknownNameReturnsError`).
- `np.random.uniform(1, t)` samples the half-open interval `[1, t)`, so a
  new time may equal 1 (`Censoring.ChosenAreCensored`).

## Model

| member | source | states |
|---|---|---|
| `ArrayOps.Where` | dsm/datasets.py:32 | `np.where(mask)[0]` is ascending, lists only positions where the mask holds, lists every such position, and has one entry per true mask entry |
| `ArrayOps.EqMaskCount` | dsm/datasets.py:94 | the comparison mask `ids == v` holds once per occurrence of `v` in `ids` |
| `ArrayOps.Gather` | dsm/datasets.py:37 | `t[toswitch]` has one entry per index; entry k is `xs[idx[k]]` by definition |
| `ArrayOps.Masked` | dsm/datasets.py:34 | `xs[mask]` has one element per true mask entry |
| `ArrayOps.MaskedIsGather` | dsm/datasets.py:133 | `xs[mask]` equals `xs` gathered at `np.where(mask)[0]`: the selected elements in their original order |
| `ArrayOps.MaskedIncreasing` | dsm/datasets.py:34 | selecting from an ascending index list keeps it ascending, and an entry survives exactly when its mask entry holds |
| `ArrayOps.MaskedAll` | dsm/datasets.py:93-96 | a mask that holds everywhere selects the whole sequence |
| `ArrayOps.MaskedDisjointUnion` | dsm/datasets.py:93-96 | selecting with two disjoint masks together gives the multiset union of the two selections |
| `ArrayOps.Scatter` | dsm/datasets.py:42 | `xs[idx] = vals` keeps the length and leaves every position outside `idx` unchanged |
| `ArrayOps.ScatterAt` | dsm/datasets.py:36 | with ascending positions, as `toswitch` always is, `xs[idx] = vals` leaves `vals[k]` at `idx[k]` |
| `ArrayOps.IncreasingCardinality` | dsm/datasets.py:93 | an ascending sequence has as many distinct values as entries |
| `ArrayOps.FromColumnsColumns` | dsm/datasets.py:79-80 | a 2-D array built from column vectors has exactly those vectors as its columns |
| `ArrayOps.HStackColumns` | dsm/datasets.py:81 | `np.hstack([a, b])` of rectangular blocks is rectangular, with the columns of `a` first and those of `b` after them |
| `Censoring.Uncensored` | dsm/datasets.py:32 | `uncens` is ascending and holds exactly the indices whose event flag is 1 |
| `Censoring.Switched` | dsm/datasets.py:33-34 | `toswitch` is ascending, holds only observed events, and holds the k-th uncensored index iff the k-th Bernoulli outcome is true |
| `Censoring.CensoredEvents` | dsm/datasets.py:36 | the event array after `e[toswitch] = 0` keeps its length; its contents are given by the three lemmas below |
| `Censoring.CensoredTimes` | dsm/datasets.py:42 | the time array after `t[toswitch] = newt` keeps its length; its contents are given by the three lemmas below |
| `Censoring.OnlyUncensoredChange` | dsm/datasets.py:32-36 | an index whose event flag is not 1 keeps its flag and its time |
| `Censoring.ChosenAreCensored` | dsm/datasets.py:36-42 | a chosen uncensored index ends with event 0 and a time of at least 1 and below its original time |
| `Censoring.UnchosenAreKept` | dsm/datasets.py:33-42 | an uncensored index the mask passes over keeps event 1 and its original time |
| `Censoring.AllChosenCensorsEverything` | dsm/datasets.py:33-36 | when every Bernoulli outcome is true, every event flag 1 becomes 0 and every other flag stays |
| `Censoring.Resample` | dsm/datasets.py:39-41 | the loop builds `newt` with one sample per old time, each in `[1, t__)` |
| `Censoring.AssignAt` | dsm/datasets.py:36 | writing `a[idx] = vals` into an array leaves it equal to the scattered sequence |
| `Censoring.IncreaseCensoring` | dsm/datasets.py:30-44 | changes `e` and `t` in place to the censored events and resampled times, and returns the same two arrays |
| `Pbc.NumericColumns` | dsm/datasets.py:74-75 | `dat_num.values` has seven columns, each with one entry per record |
| `Pbc.AgeColumn` | dsm/datasets.py:76 | `data['age'] + data['years']` has one entry per record |
| `Pbc.Features` | dsm/datasets.py:78-81 | the stacked matrix of one-hot, numeric and age blocks has one row per record |
| `Pbc.FeatureRow` | dsm/datasets.py:76-81 | one record's covariates have the one-hot width plus 8 entries |
| `Pbc.FeaturesByRow` | dsm/datasets.py:76-81 | row i of the column-wise stacked matrix is record i's one-hot row, then its seven numeric values in the listed order, then age + years |
| `Pbc.FeaturesByColumn` | dsm/datasets.py:76-81 | with one-hot rows of width w, the matrix has w + 8 columns: the one-hot columns, then column w + c is the c-th numeric column, then column w + 7 is the age column |
| `Pbc.Times` | dsm/datasets.py:83 | `data['years'] - data['year']` has one time per record |
| `Pbc.Events` | dsm/datasets.py:84 | one event flag per record |
| `Pbc.Ids` | dsm/datasets.py:93 | one subject id per record |
| `Pbc.Insert` | dsm/datasets.py:93 | inserting into an ascending list of distinct ids keeps it ascending and adds exactly the new id |
| `Pbc.SortedDistinct` | dsm/datasets.py:93 | `sorted(list(set(ids)))` is strictly ascending and holds exactly the ids that occur |
| `Pbc.Groups` | dsm/datasets.py:94-96 | one slice per id of `order` |
| `Pbc.GroupBy` | dsm/datasets.py:93-96 | one group per sorted distinct id; group k has one entry per occurrence of the k-th id, so none is empty |
| `Pbc.GroupCount` | dsm/datasets.py:93 | sequential mode has one group per distinct subject id |
| `Pbc.GroupIsSubject` | dsm/datasets.py:94-96 | group k is the rows of the k-th smallest id, all of them, in original order, never empty, and aligned columns give slices of equal length |
| `Pbc.ConcatGroups` | dsm/datasets.py:93-96 | joining the groups of ascending distinct ids gives, up to order, the rows whose id is among them |
| `Pbc.MemberMaskSnoc` | dsm/datasets.py:93 | a new largest id adds its rows to the membership mask, disjointly |
| `ArrayOps.MaskedNone` | dsm/datasets.py:94 | a mask that holds nowhere selects nothing |
| `Pbc.GroupByPermutes` | dsm/datasets.py:93-96 | every row lands in exactly one group: joining the groups is a permutation of the rows |
| `Pbc.GroupBySubject` | dsm/datasets.py:92-97 | the loop that appends one slice of `x`, `t` and `e` per sorted id computes exactly the per-subject groups |
| `Pbc.LoadPbc` | dsm/datasets.py:68-97 | flat iff not sequential; flat arrays have one entry per record; sequential lists have one entry per distinct subject id, and each subject's `x`, `t` and `e` slices are non-empty and of equal length |
| `Support.NumericColumns` | dsm/datasets.py:118-120 | `x1` has eighteen columns, each with one entry per record |
| `Support.Features` | dsm/datasets.py:123-125 | the concatenated matrix of numeric and one-hot blocks has one row per record |
| `Support.FeatureRow` | dsm/datasets.py:118-125 | one record's covariates have 18 entries plus the one-hot width |
| `Support.FeaturesByRow` | dsm/datasets.py:118-125 | row i of the column-wise concatenated matrix is record i's eighteen numeric values in the listed order, then its one-hot row |
| `Support.FeaturesByColumn` | dsm/datasets.py:118-125 | with one-hot rows of width w, the matrix has 18 + w columns: column c < 18 is the c-th numeric column, and column 18 + c is the c-th one-hot column |
| `Support.NotNanCount` | dsm/datasets.py:132 | `~np.isnan(t)` holds for every entry except the NaN ones |
| `Support.DropMissingTimes` | dsm/datasets.py:132-133 | the filtered `x`, `t`, `e` have equal length, one row per present time, and no missing time |
| `Support.DropMissingTimesKeepsTimedRows` | dsm/datasets.py:132-133 | output row k is the same input row in `x`, `t` and `e`; the kept rows are exactly those with a time, in original order |
| `Support.LoadSupport` | dsm/datasets.py:116-133 | the SUPPORT reader returns flat arrays of equal length, no longer than the table |
| `Support.LoadSupportShape` | dsm/datasets.py:116-133 | the SUPPORT reader returns flat, equal-length arrays with no missing time, one row per record that has a time |
| `Datasets.LoadDataset` | dsm/datasets.py:136-160 | `'SUPPORT'` gives the SUPPORT reader's result; `'PBC'` gives the PBC reader's result with the `sequential` keyword's value; the error value comes back iff the name is neither; the result is grouped per subject iff the name is `'PBC'` and `sequential` is true |
| `Datasets.SequentialOption` | dsm/datasets.py:157 | `kwargs.get('sequential', False)`: false when the keyword is absent, its value otherwise |
| `Datasets.DefaultIsSupport` | dsm/datasets.py:136-155 | with no arguments SUPPORT is loaded, and SUPPORT ignores every keyword argument |
| `Datasets.PbcDefaultsToFlat` | dsm/datasets.py:156-158 | without a `sequential` keyword, PBC loads as with `sequential=False`, flat |
| `Datasets.UnknownNameReturnsError` | dsm/datasets.py:159-160 | any other name returns, and does not raise, the error value with message `'Dataset ' + name + ' not implemented.'` |
| `Datasets.SequentialRegroupsFlat` | dsm/datasets.py:89-97 | sequential PBC has one entry per distinct id, and joining its `x`, `t` and `e` entries gives the flat arrays up to order |

## Left out

- Reading the bundled CSV files (`pkgutil.get_data`, `pd.read_csv`): this is I/O. The parsed tables are inputs (`Datasets.Resources`).
- `pd.get_dummies`: the columns it creates, and their order, depend on pandas. Each record's one-hot block is an opaque input. The `astype(str)` cast of `histologic` only affects that encoding, so it is left out too.
- `SimpleImputer` and `StandardScaler`: these are floating-point library numerics. They appear as one opaque function, `standardize`, which is only required to keep the row count. The zero-mean, unit-variance property is not modelled.
- Floating point: values are exact reals, and NaN is `None` in the readers. The times of `increase_censoring` are plain reals, as the lines below say. Float rounding is not modelled.
- `p` in `increase_censoring` and the `np.random` draws: the Bernoulli outcomes (`mask`) and the uniform samples (`draws`) are inputs. Their distribution is not modelled.
- Censoring.IncreaseCensoring: requires each supplied draw to lie in `[1, t)` of its index. So a chosen index whose original time is at most 1 cannot be modelled. The source does not guard that case, and no behaviour is assumed for it.
- Censoring.IncreaseCensoring: `t` is an array of reals, so a NaN time is not modelled. For a chosen index with a NaN time, `np.random.uniform(1, nan)` raises at line 41, after `e` has already been zeroed at line 36. That partial update is not modelled.
- Censoring.IncreaseCensoring: the probability `p` is not a parameter. A `p` outside [0, 1], or NaN, makes `np.random.choice` raise at line 33, and that error is not modelled.
- Censoring.IncreaseCensoring: requires every switched index to lie inside `t`. A longer `t` is accepted. If a switched index is at least `len(t)`, numpy raises an index error at line 37, after `e` has been written at line 36. That partial update is not modelled.
- Censoring.IncreaseCensoring: `t` is an array of reals. If `t` had an integer dtype, numpy would truncate the assigned samples, and that is not modelled.
- `load_dataset` keyword values: each is reduced to the truthiness that `if not sequential` tests. Keyword arguments other than `sequential` are accepted and ignored.
- Event and id columns are integers. A NaN event flag or subject id is not modelled.
- `setup.py`: it is packaging metadata only.
