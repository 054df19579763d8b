# Clustering engine of the stock-clustering app, in Dafny

This project models the two algorithmic pieces of the Streamlit app in
`app/src/app.py` and proves properties about them:

- **Elbow selection** (`elbow_method`). The app fits KMeans for k = 1..10 and
  appends each fit's inertia to a curve. It then scans the interior points
  `i = 1 .. len - 2` for the first `i` whose ratio
  `(c[i-1] - c[i]) / (c[i] - c[i+1])` exceeds 0.1, and returns
  `elbow_index + 1`. When nothing matches, `elbow_index` stays `-1` and the
  returned count is `0`. The model keeps that behaviour as written. The
  division has no guard, so a zero drop after a point the scan reaches raises
  Python's `ZeroDivisionError`. The model makes this an explicit error outcome
  rather than a precondition.
- **Grouping with labels** (`clustering`). For every cluster id in
  `range(optimal_clusters)`, the app selects the rows whose `cluster` entry
  equals the id, keeping their original order. It attaches a display name
  ('Nama Pakaian'): the row's `label` when the table has that column, and
  otherwise the row index as text. It then stores the table in the session
  state under `cluster_{id + 1}`.

Modules:

- `Elbow` (elbow.dfy) holds the curve-building loop, the pure scan `ElbowIndex`, and
  the loop method `ScanElbow` with its `break`, proved equal to that scan.
  Lemmas characterise the scan's three outcomes (first match, no match,
  division fault) in both directions.
- `Decimal` (decimal.dfy) is Python's `str` of a non-negative int, with a
  read-back function and a round-trip lemma.
- `Partition` (partition.dfy) selects a cluster's rows and attaches the display names,
  with lemmas for membership, order, disjointness and coverage, and a proof
  that the group sizes add up.
- `Session` (session.dfy) is the session-state class. It also holds the loop
  that stores each group in its slot, and the `clustering` flow that ties the
  pieces together.

The KMeans fits are foreign code and are parameters of the model.
`inertia(k)` is the inertia the candidate fit with k clusters reports (line 29),
or `None` when that fit raises (KMeans rejects more clusters than rows).
`fitPredict(k)` is the assignment vector the final fit writes into the
`cluster` column (line 60), or `None` when that fit raises. The model requires
`fitPredict(k)` to be `None` for every k below 1, because KMeans rejects such
a count. Row indices are row positions, which is how the
table loaded from CSV is indexed.

Three behaviours of the code are kept as written:

- With no match the returned count is `0`; there is no fallback count.
- A zero drop after a point the scan reaches raises.
- `elbow_method` can return `0`. `clustering` then passes that count to the
  final KMeans fit, which rejects fewer than one cluster, so `clustering`
  raises there.

`clustering` drops the `label` column (line 67) before anything else, and
`drop` raises when the column is missing. So inside `clustering` the
index-as-text fallback (line 103) cannot be reached. The model shows this
in `Session.Clustering` (outcome `MissingLabelColumn`). It models the fallback
itself in `Partition.DisplayName`, which `StoreClusterGroups` uses when it is
called on its own.

## Model

| member | source | states |
|---|---|---|
| `Elbow.CurvePrefixOutcome` | app/src/app.py:27-30 | The fits for k = 1..n give a curve exactly when none of them raises. The curve then has n entries, and entry j is the inertia for k = j + 1. Otherwise the error names the first fit that raised. |
| `Elbow.BuildCurve` | app/src/app.py:27-30 | The append loop computes `InertiaCurve`. On success the curve has exactly 10 entries, and entry j is the inertia of the fit with k = j + 1 clusters, in increasing k. It succeeds exactly when no candidate fit raises. |
| `Elbow.ScanFromOutcome` | app/src/app.py:33-37 | A scan started at interior point s ends in one of three ways. It returns -1 and every point from s passed (ratio defined and at most 0.1). Or it returns the first point from s whose ratio exceeds 0.1, and every earlier point passed. Or it faults at the first zero drop, and every earlier point passed. |
| `Elbow.ElbowIndexIsFirstMatch` | app/src/app.py:34-37 | `elbow_index` equals i (i ≠ -1) if and only if i is interior, its ratio exceeds 0.1, and every ratio at j in [1, i) is defined and at most 0.1. |
| `Elbow.ElbowIndexNoMatch` | app/src/app.py:33-37 | `elbow_index` stays -1 if and only if every interior ratio is defined and at most 0.1. |
| `Elbow.ElbowIndexFault` | app/src/app.py:34-35 | The unguarded division raises at point i if and only if the scan reaches i (every earlier ratio is defined and at most 0.1) and the drop after i is zero. |
| `Elbow.ElbowIndexRange` | app/src/app.py:33-36 | A successful scan gives -1 or an index in [1, len(c) - 2]. |
| `Elbow.NonZeroPrefixSuffices` | app/src/app.py:34-37 | If the drops are nonzero at every point before m and m exceeds the threshold, the scan cannot fault and its index is at most m. Zero drops after the match do not matter. |
| `Elbow.ElbowDependsOnlyOnPrefix` | app/src/app.py:34-37 | Once the first match is i, any curve that agrees on entries 0..i+1 gives the same index: later entries are never read. |
| `Elbow.OptimalClustersOnCurve` | app/src/app.py:33-52 | On a 10-entry curve the returned count is 0 exactly when no point matches. Otherwise it is the first elbow plus one and lies in [2, 9]. A zero-drop fault of the scan is returned unchanged. |
| `Elbow.ScanElbow` | app/src/app.py:33-37 | The loop with `break` (and the raise on a zero drop) computes exactly the scan `ElbowIndex`. |
| `Elbow.ElbowMethod` | app/src/app.py:26-52 | `elbow_method` raises when a candidate fit raises or the scan divides by zero. Otherwise it returns `elbow_index + 1` of the scan over the curve it built, which is 0 or in [2, 9]. |
| `Decimal.DecimalString` | app/src/app.py:103 | The text of an index is non-empty, all decimal digits, with no leading zero. |
| `Decimal.DecimalRoundTrip` | app/src/app.py:103 | Reading back the text of n gives n. |
| `Decimal.DecimalStringInjective` | app/src/app.py:103 | Distinct indices have distinct texts. |
| `Decimal.CanonicalDecimalUnique` | app/src/app.py:103 | Any non-empty digit text with no leading zero that reads back as n is exactly the text of n: the digit and no-leading-zero clauses pin a name or key to Python's `str`. |
| `Partition.MemberIndicesExact` | app/src/app.py:94 | The mask `data['cluster'] == id` selects exactly the indices whose assignment is id, in strictly increasing order. |
| `Partition.DisplayName` | app/src/app.py:98-103 | With a `label` column, a row's display name is its `label` at the same index. Without one, it is non-empty digit text with no leading zero that reads back as the row's index, which is exactly `str(j)`. |
| `Partition.ClusterGroup` | app/src/app.py:93-103 | Cluster id's table holds exactly the rows assigned id, in original order, each with its own features, its `cluster` entry, and its display name. The display name is the `label` at the same index when the column exists, else the index as text. |
| `Partition.GroupsPartitionRows` | app/src/app.py:93-94 | A row assigned an id in [0, n) appears in one of the groups 0..n-1. Every group containing a row is the group of that row's id, so the groups are pairwise disjoint. |
| `Partition.GroupSizesAddUp` | app/src/app.py:93-94 | The sizes of groups 0..n-1 add up to the number of rows assigned an id below n. |
| `Partition.FallbackNamesDistinct` | app/src/app.py:101-103 | Without a `label` column, distinct rows get distinct display names. |
| `Session.SlotKey` | app/src/app.py:111 | The slot key of cluster id is `cluster_` followed by digit text with no leading zero that reads back as id + 1, which is exactly `cluster_{id + 1}`. |
| `Session.FirstSlotKeys` | app/src/app.py:14-15 | The keys of clusters 0 and 1 are the literal names `cluster_1` and `cluster_2` that the first run creates and the report pages read. |
| `Session.SlotKeyInjective` | app/src/app.py:111 | Different cluster ids are stored under different keys `cluster_{id + 1}`. |
| `Session.SessionState.constructor` | app/src/app.py:10-15 | On first run, the slots `cluster_1` and `cluster_2` hold `None`. |
| `Session.StoreClusterGroups` | app/src/app.py:93-111 | After the loop, slot `cluster_{id + 1}` holds cluster id's table for every id in `range(optimal_clusters)`. Every other slot is unchanged. |
| `Session.NoElbowRaises` | app/src/app.py:47-60 | When every candidate fit succeeds and no interior point matches, `clustering` passes count 0 to the final fit, which raises: it never completes. |
| `Session.ClusteringCompletesIff` | app/src/app.py:26-111 | `clustering` completes with count k exactly when the table has a `label` column, all ten candidate fits succeed, k - 1 is the first elbow of their inertias, and the final fit with k clusters succeeds. |
| `Session.Clustering` | app/src/app.py:65-111 | `clustering` raises when the `label` column is missing, when a candidate fit raises, when the elbow scan divides by zero, or when the final fit raises (always for count 0). In these cases no slot is written. Otherwise the count is in [2, 9], each of its clusters is stored in its slot, and nothing else changes. |

## Left out

- The KMeans fits themselves are not modelled: random initialisation, Lloyd iterations, `n_init`, `random_state`, `cluster_centers_` and the reported `inertia_` of the final fit (lines 29, 59-63, 87). They are foreign library code. The model takes each fit's inertia and the final fit's assignment vector as parameters. Whether a fit raises is an input too (`None`), except that the final fit is required to raise for a count below 1.
- Floating point is not modelled. Inertia values and ratios are exact reals, and the threshold is exactly 1/10. A zero drop is modelled as Python's `ZeroDivisionError`. NumPy's inf/nan results for float64 values are not modelled.
- Plotting with seaborn/matplotlib is not modelled. This includes the elbow annotation at line 48, which reads `clusters[-1]` when there is no match.
- Streamlit page code is not modelled: the headers, `st.table`/`st.write`, buttons, `experimental_rerun`, the `show_label_column` flag (lines 89, 115), page navigation, and the session keys `initialized` and `page`. The session state is modelled only as its map of cluster slots.
- File and export I/O is not modelled: `load_or_create_dataset`, `input_data`, `convert_to_csv` and the downloads in `cetak_laporan`.
- pandas mechanics (`copy`, `drop`, `.style.format`) are modelled only by their meaning on rows and columns. The row index is taken to be the row position.
