/** The v1 `KResource` skeleton: a resource that embeds a status, hands out a
    pointer to it, and reports the condition set its status was built with. */
module DuckV1 {
  import opened Wrappers
  import opened Conditions
  import opened DuckStatus
  import opened Managers

  /** The set a resource reports for itself: the batch preset when its status
      carries a Succeeded condition, the living preset otherwise. */
  function ReportedConditionSet(cs: seq<Condition>): (r: ConditionSet)
    ensures r.happy == ConditionSucceeded <==> Find(cs, ConditionSucceeded).Some?
    ensures r.happy != ConditionSucceeded ==> r.happy == ConditionReady
    ensures r.dependents == [] && ValidSet(r)
  {
    if Find(cs, ConditionSucceeded).Some? then NewBatchConditionSet([]) else NewLivingConditionSet([])
  }

  /** A status initialized from a fresh one by either preset reports that
      same preset. */
  lemma ReportedSetMatchesPreset(preset: ConditionSet)
    requires preset == NewLivingConditionSet([]) || preset == NewBatchConditionSet([])
    ensures ReportedConditionSet(Initialized([], preset)) == preset
    ensures Find(Initialized([], preset), ReportedConditionSet(Initialized([], preset)).happy).Some?
  {
    InitializedFind([], preset, ConditionSucceeded);
    InitializedFind([], preset, preset.happy);
  }

  class KResource {
    /** The embedded status; `GetStatus` returns its address. */
    const status: Status

    constructor ()
      ensures fresh(status) && status.Value() == EmptyStatus
    {
      status := new Status.Empty();
    }

    method GetStatus() returns (s: Status)
      ensures s == status
    {
      s := status;
    }

    method GetConditionSet() returns (s: ConditionSet)
      ensures s == ReportedConditionSet(status.conditions)
    {
      var succeeded := status.GetCondition(ConditionSucceeded);
      if succeeded.Some? {
        s := NewBatchConditionSet([]);
      } else {
        s := NewLivingConditionSet([]);
      }
    }
  }

  /** Initialize a fresh resource's status through one manager, then read its
      top-level condition through a second manager built from the set the
      resource reports: it exists and has the preset's top-level type. */
  method TopLevelAfterInitialize(preset: ConditionSet) returns (top: Option<Condition>)
    requires preset == NewLivingConditionSet([]) || preset == NewBatchConditionSet([])
    ensures top.Some? && top.value.condType == preset.happy
    ensures top == Some(Condition(preset.happy, ConditionUnknown, "", ""))
  {
    var resource := new KResource();
    var s := resource.GetStatus();
    var initializer := new ConditionManager(preset, s);
    initializer.InitializeConditions();
    var reported := resource.GetConditionSet();
    s := resource.GetStatus();
    var reader := new ConditionManager(reported, s);
    top := reader.GetTopLevelCondition();
    ReportedSetMatchesPreset(preset);
    InitializedFind([], preset, preset.happy);
  }
}
