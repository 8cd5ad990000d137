/** The v1beta1 status scenarios, replayed against the model: lookups on a
    status with two conditions, and the initialize / mark False / mark True
    sequence on a living set with one dependent, each followed by a
    narrowing into a fresh status. */
module DuckV1Beta1Scenarios {
  import opened Wrappers
  import opened Conditions
  import opened DuckStatus
  import opened Managers

  /** A lookup on a status finds each stored condition and nothing for an
      absent type. */
  method StatusGetConditionScenario() {
    var foo := Condition("Foo", ConditionTrue, "", "Something something foo");
    var bar := Condition("Bar", ConditionTrue, "", "Something something bar");
    var s := new Status([foo, bar], 0, None);
    var got := s.GetCondition(foo.condType);
    assert got == Some(foo);
    got := s.GetCondition(bar.condType);
    assert s.conditions[1] == bar;
    assert got == Some(bar);
    got := s.GetCondition("None");
    assert got == None;
  }

  /** Narrowing the scenario's status into a fresh one. */
  method NarrowToFresh(s: Status, condSet: ConditionSet) returns (s2: Status, happy: bool)
    requires condSet.happy == ConditionReady
    requires TypeSorted(s.conditions) && Find(s.conditions, ConditionReady).Some?
    ensures fresh(s2) && |s2.conditions| == 1
    ensures s2.observedGeneration == s.observedGeneration && s2.annotations == s.annotations
    ensures happy == Happy(s.conditions, condSet)
  {
    s2 := new Status.Empty();
    s.ConvertTo(s2);
    NarrowToEmpty(s.Value(), ConditionReady);
    NarrowSortedKeepsReady(s.Value(), EmptyStatus, condSet);
    var m2 := new ConditionManager(condSet, s2);
    happy := m2.IsHappy();
  }

  /** A manager over the scenario's living set with the one dependent "Foo". */
  predicate FooManager(mgr: ConditionManager) {
    mgr.conditionSet.happy == ConditionReady && mgr.conditionSet.dependents == ["Foo"]
  }

  /** Initializing an empty status gives Ready and Foo, both Unknown. */
  method InitializeStep(mgr: ConditionManager)
    requires FooManager(mgr) && mgr.status.conditions == []
    modifies mgr.status
    ensures TypeSorted(mgr.status.conditions)
    ensures HasStatus(Find(mgr.status.conditions, ConditionReady), ConditionUnknown)
    ensures HasStatus(Find(mgr.status.conditions, "Foo"), ConditionUnknown)
    ensures mgr.status.observedGeneration == old(mgr.status.observedGeneration)
    ensures mgr.status.annotations == old(mgr.status.annotations)
  {
    mgr.InitializeConditions();
    InitializeEmpty(mgr.conditionSet);
    assert "Foo" in mgr.conditionSet.dependents;
  }

  /** Marking Foo False makes both Ready and Foo False. */
  method MarkFalseStep(mgr: ConditionManager)
    requires FooManager(mgr) && TypeSorted(mgr.status.conditions)
    modifies mgr.status
    ensures TypeSorted(mgr.status.conditions)
    ensures HasStatus(Find(mgr.status.conditions, ConditionReady), ConditionFalse)
    ensures HasStatus(Find(mgr.status.conditions, "Foo"), ConditionFalse)
    ensures mgr.status.observedGeneration == old(mgr.status.observedGeneration)
    ensures mgr.status.annotations == old(mgr.status.annotations)
  {
    mgr.MarkFalse("Foo", "bad", "for business");
    assert "Foo" in mgr.conditionSet.dependents;
  }

  /** Marking the only dependent True makes both Ready and Foo True. */
  method MarkTrueStep(mgr: ConditionManager)
    requires FooManager(mgr) && TypeSorted(mgr.status.conditions)
    modifies mgr.status
    ensures TypeSorted(mgr.status.conditions)
    ensures HasStatus(Find(mgr.status.conditions, ConditionReady), ConditionTrue)
    ensures HasStatus(Find(mgr.status.conditions, "Foo"), ConditionTrue)
    ensures mgr.status.observedGeneration == old(mgr.status.observedGeneration)
    ensures mgr.status.annotations == old(mgr.status.annotations)
  {
    ghost var before := mgr.status.conditions;
    mgr.MarkTrue("Foo");
    MarkTrueOnlyDependent(before, mgr.conditionSet, "Foo");
  }

  method ConditionSetScenario() {
    var condSet := NewLivingConditionSet(["Foo"]);
    DedupDistinct(ConditionReady, ["Foo"]);
    assert condSet.dependents == ["Foo"];
    var annotations := map["burning" := "the", "bridges" := "down"];
    var s := new Status([], 42, Some(annotations));
    var mgr := new ConditionManager(condSet, s);

    InitializeStep(mgr);
    var ready := mgr.GetCondition(ConditionReady);
    var foo := mgr.GetCondition("Foo");
    assert HasStatus(ready, ConditionUnknown) && HasStatus(foo, ConditionUnknown);

    var s2, happy := NarrowToFresh(s, condSet);
    assert !happy && |s2.conditions| == 1 && s2.observedGeneration == 42;
    assert s2.annotations == Some(annotations);

    MarkFalseStep(mgr);
    ready := mgr.GetCondition(ConditionReady);
    foo := mgr.GetCondition("Foo");
    assert HasStatus(ready, ConditionFalse) && HasStatus(foo, ConditionFalse);

    s2, happy := NarrowToFresh(s, condSet);
    assert !happy && |s2.conditions| == 1 && s2.observedGeneration == 42;

    MarkTrueStep(mgr);
    ready := mgr.GetCondition(ConditionReady);
    foo := mgr.GetCondition("Foo");
    assert HasStatus(ready, ConditionTrue) && HasStatus(foo, ConditionTrue);

    s2, happy := NarrowToFresh(s, condSet);
    assert happy && |s2.conditions| == 1 && s2.observedGeneration == 42;

    s.annotations := None;
    s2 := new Status.Empty();
    s.ConvertTo(s2);
    assert s2.annotations == None;
  }
}
