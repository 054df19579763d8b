/** The session state that `clustering` writes its groups into, and
    `clustering` itself: drop the label column, pick the count with the
    elbow method, fit, then store the table of each cluster id in the
    slot `cluster_{id + 1}`. */
module Session {
  import opened Decimal
  import opened Partition
  import opened Wrappers
  import Elbow

  /** A session-state slot: still `None`, or the table of one cluster. */
  datatype Entry = Unset | Table(rows: seq<GroupRow>)

  /** The key of the slot that holds cluster `id`: `f"cluster_{id + 1}"`. */
  function SlotKey(id: nat): (key: string)
    ensures 8 < |key| && key[..8] == "cluster_" && DecimalValue(key[8..]) == id + 1
    ensures forall k :: 8 <= k < |key| ==> '0' <= key[k] <= '9'
    ensures |key| > 9 ==> key[8] != '0'
  {
    DecimalRoundTrip(id + 1);
    var key := "cluster_" + DecimalString(id + 1);
    assert key[8..] == DecimalString(id + 1);
    key
  }

  /** The two slots the first run creates are named `cluster_1` and `cluster_2`. */
  lemma FirstSlotKeys()
    ensures SlotKey(0) == "cluster_1" && SlotKey(1) == "cluster_2"
  {
  }

  /** Different cluster ids are stored under different keys. */
  lemma SlotKeyInjective(a: nat, b: nat)
    ensures SlotKey(a) == SlotKey(b) ==> a == b
  {
    if SlotKey(a) == SlotKey(b) {
      assert DecimalString(a + 1) == SlotKey(a)[8..];
      assert DecimalString(b + 1) == SlotKey(b)[8..];
      DecimalStringInjective(a + 1, b + 1);
    }
  }

  /** The keys the loop over `range(n)` writes. */
  ghost function SlotKeys(n: int): set<string>
  {
    set id: nat | id < n :: SlotKey(id)
  }

  /** The cluster slots of Streamlit's session state. */
  class SessionState {
    var slots: map<string, Entry>

    /** First run of the page: both report slots start out as `None`. */
    constructor ()
      ensures slots == map[SlotKey(0) := Unset, SlotKey(1) := Unset]
    {
      slots := map[SlotKey(0) := Unset, SlotKey(1) := Unset];
    }
  }

  /** The loop over `range(optimalClusters)`: select each cluster's rows, attach display names, store the table. */
  method StoreClusterGroups(session: SessionState, frame: Frame, assignment: seq<int>, optimalClusters: int)
    requires frame.Valid() && |assignment| == |frame.records|
    modifies session
    ensures forall id: nat :: id < optimalClusters ==>
              SlotKey(id) in session.slots
              && session.slots[SlotKey(id)] == Table(ClusterGroup(frame, assignment, id))
    ensures forall key :: key !in SlotKeys(optimalClusters) ==>
              (key in session.slots <==> key in old(session.slots))
              && (key in old(session.slots) ==> session.slots[key] == old(session.slots)[key])
  {
    var count: nat := if optimalClusters < 0 then 0 else optimalClusters;
    SlotKeysEmpty(optimalClusters);
    var id: nat := 0;
    while id < count
      invariant id <= count
      invariant forall c: nat :: c < id ==>
                  SlotKey(c) in session.slots
                  && session.slots[SlotKey(c)] == Table(ClusterGroup(frame, assignment, c))
      invariant forall key :: key !in SlotKeys(id) ==>
                  (key in session.slots <==> key in old(session.slots))
                  && (key in old(session.slots) ==> session.slots[key] == old(session.slots)[key])
    {
      var clusterData := ClusterGroup(frame, assignment, id);
      forall c: nat | c < id
        ensures SlotKey(c) != SlotKey(id)
      {
        SlotKeyInjective(c, id);
      }
      SlotKeysGrow(id);
      session.slots := session.slots[SlotKey(id) := Table(clusterData)];
      id := id + 1;
    }
  }

  lemma SlotKeysGrow(n: nat)
    ensures SlotKeys(n + 1) == SlotKeys(n) + {SlotKey(n)}
  {
  }

  lemma SlotKeysEmpty(n: int)
    ensures n <= 0 ==> SlotKeys(n) == {}
  {
  }

  /** Why `clustering` stops: the label column is missing (`drop` raises), `elbow_method` raises
      (a candidate fit or the ratio's division), or the final fit raises. */
  datatype ClusteringError = MissingLabelColumn | ElbowFailed(error: Elbow.Error) | FitFailed(clusters: int)

  datatype Outcome = Completed | Raised(error: ClusteringError)

  /** The outcome of `clustering` for a table, the candidate fits' inertias and the final fit's assignment per count. */
  function ClusteringOutcome(frame: Frame, inertia: nat -> Option<real>, fitPredict: int -> Option<seq<int>>): Outcome
  {
    if frame.labels.None? then Raised(MissingLabelColumn)
    else match Elbow.ElbowCount(inertia)
      case Err(e) => Raised(ElbowFailed(e))
      case Ok(k) => if fitPredict(k).None? then Raised(FitFailed(k)) else Completed
  }

  /** KMeans rejects fewer than one cluster, so when no interior point matches, `clustering`
      passes count 0 to the final fit and raises there: it never completes. */
  lemma NoElbowRaises(frame: Frame, inertia: nat -> Option<real>, fitPredict: int -> Option<seq<int>>)
    requires forall k :: k < 1 ==> fitPredict(k).None?
    requires frame.labels.Some?
    requires Elbow.InertiaCurve(inertia).Ok? && Elbow.NoElbow(Elbow.InertiaCurve(inertia).value)
    ensures ClusteringOutcome(frame, inertia, fitPredict) == Raised(FitFailed(0))
  {
    Elbow.ElbowIndexNoMatch(Elbow.InertiaCurve(inertia).value);
  }

  /** The inertias the ten candidate fits report, in increasing k (0 for a fit that raised). */
  ghost function ReportedInertias(inertia: nat -> Option<real>): seq<real>
  {
    seq(Elbow.KMax, j requires 0 <= j < Elbow.KMax => if inertia(j + 1).Some? then inertia(j + 1).value else 0.0)
  }

  /** `clustering` completes with count k exactly when the table has a `label` column, all ten
      candidate fits succeed, k - 1 is the first elbow of their inertias, and the final fit with k succeeds. */
  lemma ClusteringCompletesIff(frame: Frame, inertia: nat -> Option<real>, fitPredict: int -> Option<seq<int>>, k: int)
    requires forall n :: n < 1 ==> fitPredict(n).None?
    ensures (ClusteringOutcome(frame, inertia, fitPredict) == Completed && Elbow.ElbowCount(inertia) == Elbow.Ok(k))
            <==> (&& frame.labels.Some?
                  && (forall n :: 1 <= n <= Elbow.KMax ==> inertia(n).Some?)
                  && Elbow.IsFirstElbow(ReportedInertias(inertia), k - 1)
                  && fitPredict(k).Some?)
  {
    Elbow.CurvePrefixOutcome(inertia, Elbow.KMax);
    var curve := Elbow.InertiaCurve(inertia);
    if curve.Ok? {
      assert curve.value == ReportedInertias(inertia);
      if k - 1 != -1 {
        Elbow.ElbowIndexIsFirstMatch(curve.value, k - 1);
      }
    }
  }

  /** `clustering`: on success, slot `cluster_{id + 1}` holds cluster id's table for every id below the elbow count and no other slot changes; on failure nothing is stored. */
  method Clustering(session: SessionState, frame: Frame, inertia: nat -> Option<real>, fitPredict: int -> Option<seq<int>>)
    returns (outcome: Outcome)
    requires frame.Valid()
    requires forall k :: k < 1 ==> fitPredict(k).None?
    requires forall k :: fitPredict(k).Some? ==> |fitPredict(k).value| == |frame.records|
    modifies session
    ensures outcome == ClusteringOutcome(frame, inertia, fitPredict)
    ensures outcome.Raised? ==> session.slots == old(session.slots)
    ensures outcome.Completed? ==>
              var k := Elbow.ElbowCount(inertia).value;
              && 2 <= k <= Elbow.KMax - 1
              && (forall id: nat :: id < k ==>
                    SlotKey(id) in session.slots
                    && session.slots[SlotKey(id)] == Table(ClusterGroup(frame, fitPredict(k).value, id)))
              && (forall key :: key !in SlotKeys(k) ==>
                    (key in session.slots <==> key in old(session.slots))
                    && (key in old(session.slots) ==> session.slots[key] == old(session.slots)[key]))
  {
    if frame.labels.None? {
      return Raised(MissingLabelColumn);
    }
    var optimal := Elbow.ElbowMethod(inertia);
    if optimal.Err? {
      return Raised(ElbowFailed(optimal.error));
    }
    var optimalClusters := optimal.value;
    var fitted := fitPredict(optimalClusters);
    if fitted.None? {
      return Raised(FitFailed(optimalClusters));
    }
    StoreClusterGroups(session, frame, fitted.value, optimalClusters);
    outcome := Completed;
  }
}
