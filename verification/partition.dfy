/** The rows of one cluster, as `clustering` selects them: the rows whose
    `cluster` entry equals the id, in their original order, each with the
    display name ('Nama Pakaian') attached. The assignment vector that
    KMeans' `fit_predict` writes into the `cluster` column is an input. */
module Partition {
  import opened Decimal
  import opened Wrappers

  /** The numeric columns of one row: initial stock, final stock, units sold. */
  datatype Record = Record(stokAwal: real, stokAkhir: real, terjual: real)

  /** The loaded table. Row j has index j; `labels` is the `label` column when the table has one. */
  datatype Frame = Frame(records: seq<Record>, labels: Option<seq<string>>)
  {
    /** Every column has one entry per row. */
    predicate Valid()
    {
      labels.Some? ==> |labels.value| == |records|
    }
  }

  /** One row of a cluster's table: its original index, its features, its `cluster` entry and its display name. */
  datatype GroupRow = GroupRow(index: nat, record: Record, cluster: int, displayName: string)

  /** The indices of the rows whose assignment is `id`, in increasing order: the boolean mask `data['cluster'] == id`. */
  function MemberIndices(assignment: seq<int>, id: int): seq<nat>
    decreases |assignment|
  {
    if |assignment| == 0 then []
    else
      var last := |assignment| - 1;
      MemberIndices(assignment[..last], id) + (if assignment[last] == id then [last] else [])
  }

  /** The mask selects exactly the indices whose assignment is `id`, in strictly increasing order. */
  lemma {:induction false} MemberIndicesExact(assignment: seq<int>, id: int)
    ensures forall k :: 0 <= k < |MemberIndices(assignment, id)| ==>
              MemberIndices(assignment, id)[k] < |assignment| && assignment[MemberIndices(assignment, id)[k]] == id
    ensures forall j: nat :: j < |assignment| && assignment[j] == id ==> j in MemberIndices(assignment, id)
    ensures forall k1, k2 :: 0 <= k1 < k2 < |MemberIndices(assignment, id)| ==>
              MemberIndices(assignment, id)[k1] < MemberIndices(assignment, id)[k2]
    decreases |assignment|
  {
    if |assignment| > 0 {
      var last := |assignment| - 1;
      var prefix := assignment[..last];
      MemberIndicesExact(prefix, id);
      assert forall j :: 0 <= j < last ==> prefix[j] == assignment[j];
    }
  }

  /** The display name of row j: its `label` when the column exists, otherwise its index as text. */
  function DisplayName(frame: Frame, j: nat): (name: string)
    requires frame.Valid() && j < |frame.records|
    ensures frame.labels.Some? ==> name == frame.labels.value[j]
    ensures frame.labels.None? ==>
              && DecimalValue(name) == j && 1 <= |name|
              && (forall k :: 0 <= k < |name| ==> '0' <= name[k] <= '9')
              && (|name| > 1 ==> name[0] != '0')
  {
    DecimalRoundTrip(j);
    match frame.labels
    case Some(labels) => labels[j]
    case None => DecimalString(j)
  }

  /** The table of cluster `id`: exactly the rows assigned `id`, in original order, with their display names. */
  function ClusterGroup(frame: Frame, assignment: seq<int>, id: int): (g: seq<GroupRow>)
    requires frame.Valid() && |assignment| == |frame.records|
    ensures forall k :: 0 <= k < |g| ==>
              && g[k].index < |frame.records|
              && assignment[g[k].index] == id
              && g[k].cluster == id
              && g[k].record == frame.records[g[k].index]
              && g[k].displayName == DisplayName(frame, g[k].index)
    ensures forall k1, k2 :: 0 <= k1 < k2 < |g| ==> g[k1].index < g[k2].index
    ensures forall j :: 0 <= j < |assignment| && assignment[j] == id ==>
              exists k :: 0 <= k < |g| && g[k].index == j
    ensures |g| == |MemberIndices(assignment, id)|
  {
    var members := MemberIndices(assignment, id);
    MemberIndicesExact(assignment, id);
    var g := seq(|members|, k requires 0 <= k < |members| =>
                   GroupRow(members[k], frame.records[members[k]], assignment[members[k]],
                            DisplayName(frame, members[k])));
    assert forall j :: 0 <= j < |assignment| && assignment[j] == id ==> exists k :: 0 <= k < |g| && g[k].index == j by {
      forall j | 0 <= j < |assignment| && assignment[j] == id
        ensures exists k :: 0 <= k < |g| && g[k].index == j
      {
        var k :| 0 <= k < |members| && members[k] == j;
        assert g[k].index == j;
      }
    }
    g
  }

  /** Every row lands in the group of its own id and in no other: the groups are pairwise disjoint and cover each row assigned an id below n. */
  lemma GroupsPartitionRows(frame: Frame, assignment: seq<int>, n: int, j: nat)
    requires frame.Valid() && |assignment| == |frame.records| && j < |assignment|
    ensures 0 <= assignment[j] < n ==>
              exists c, k :: 0 <= c < n && 0 <= k < |ClusterGroup(frame, assignment, c)|
                             && ClusterGroup(frame, assignment, c)[k].index == j
    ensures forall c, k ::
              (0 <= k < |ClusterGroup(frame, assignment, c)| && ClusterGroup(frame, assignment, c)[k].index == j)
              ==> c == assignment[j]
  {
    if 0 <= assignment[j] < n {
      var c := assignment[j];
      var k :| 0 <= k < |ClusterGroup(frame, assignment, c)| && ClusterGroup(frame, assignment, c)[k].index == j;
    }
  }

  /** Number of rows whose id lies in [0, n). */
  function AssignedBelow(assignment: seq<int>, n: int): nat
    decreases |assignment|
  {
    if |assignment| == 0 then 0
    else
      var last := |assignment| - 1;
      AssignedBelow(assignment[..last], n) + (if 0 <= assignment[last] < n then 1 else 0)
  }

  /** Total size of the groups of ids 0..n-1. */
  function GroupSizes(frame: Frame, assignment: seq<int>, n: int): nat
    requires frame.Valid() && |assignment| == |frame.records|
    decreases n
  {
    if n <= 0 then 0 else GroupSizes(frame, assignment, n - 1) + |ClusterGroup(frame, assignment, n - 1)|
  }

  /** Total number of member indices of the ids 0..n-1. */
  function MemberCount(assignment: seq<int>, n: int): nat
    decreases n
  {
    if n <= 0 then 0 else MemberCount(assignment, n - 1) + |MemberIndices(assignment, n - 1)|
  }

  /** Appending a row assigned x adds one member to group x and none to any other. */
  lemma MemberIndicesAppend(assignment: seq<int>, x: int, id: int)
    ensures |MemberIndices(assignment + [x], id)| == |MemberIndices(assignment, id)| + (if x == id then 1 else 0)
  {
    assert (assignment + [x])[..|assignment|] == assignment;
  }

  lemma {:induction false} MemberCountAppend(assignment: seq<int>, x: int, n: int)
    ensures MemberCount(assignment + [x], n) == MemberCount(assignment, n) + (if 0 <= x < n then 1 else 0)
    decreases n
  {
    if n > 0 {
      MemberCountAppend(assignment, x, n - 1);
      MemberIndicesAppend(assignment, x, n - 1);
    }
  }

  lemma {:induction false} MemberCountIsAssignedBelow(assignment: seq<int>, n: int)
    ensures MemberCount(assignment, n) == AssignedBelow(assignment, n)
    decreases |assignment|
  {
    if |assignment| == 0 {
      MemberCountEmpty(n);
    } else {
      var last := |assignment| - 1;
      var prefix := assignment[..last];
      assert assignment == prefix + [assignment[last]];
      MemberCountIsAssignedBelow(prefix, n);
      MemberCountAppend(prefix, assignment[last], n);
    }
  }

  lemma {:induction false} MemberCountEmpty(n: int)
    ensures MemberCount([], n) == 0
    decreases n
  {
    if n > 0 {
      MemberCountEmpty(n - 1);
    }
  }

  /** The group sizes add up to the number of rows assigned an id below n: together with disjointness, each such row is grouped exactly once. */
  lemma {:induction false} GroupSizesAddUp(frame: Frame, assignment: seq<int>, n: int)
    requires frame.Valid() && |assignment| == |frame.records|
    ensures GroupSizes(frame, assignment, n) == AssignedBelow(assignment, n)
  {
    GroupSizesAreMemberCount(frame, assignment, n);
    MemberCountIsAssignedBelow(assignment, n);
  }

  lemma {:induction false} GroupSizesAreMemberCount(frame: Frame, assignment: seq<int>, n: int)
    requires frame.Valid() && |assignment| == |frame.records|
    ensures GroupSizes(frame, assignment, n) == MemberCount(assignment, n)
    decreases n
  {
    if n > 0 {
      GroupSizesAreMemberCount(frame, assignment, n - 1);
    }
  }

  /** Without a `label` column, distinct rows get distinct display names. */
  lemma FallbackNamesDistinct(frame: Frame, i: nat, j: nat)
    requires frame.Valid() && frame.labels.None?
    requires i < |frame.records| && j < |frame.records| && i != j
    ensures DisplayName(frame, i) != DisplayName(frame, j)
  {
    DecimalStringInjective(i, j);
  }
}
