/** The condition manager: `ConditionSet.Manage(status)` binds a condition set
    to one status object, and the manager's methods read and update that
    status's condition list in place. Each mutating method is proved to leave
    the list a function of `Conditions` computes from the old list, and to
    touch neither the generation nor the annotations. */
module Managers {
  import opened Wrappers
  import opened Conditions
  import opened DuckStatus

  class ConditionManager {
    const conditionSet: ConditionSet
    const status: Status

    /** `conditionSet.Manage(status)`: two managers built over the same status
        see each other's updates. */
    constructor (conditionSet: ConditionSet, status: Status)
      ensures this.conditionSet == conditionSet && this.status == status
    {
      this.conditionSet := conditionSet;
      this.status := status;
    }

    method GetCondition(t: ConditionType) returns (c: Option<Condition>)
      ensures c == Find(status.conditions, t)
      ensures c.None? <==> forall i :: 0 <= i < |status.conditions| ==> status.conditions[i].condType != t
    {
      c := status.GetCondition(t);
    }

    /** The condition of the set's top-level type, or None. */
    method GetTopLevelCondition() returns (c: Option<Condition>)
      ensures c == Find(status.conditions, conditionSet.happy)
      ensures c.Some? ==> c.value in status.conditions && c.value.condType == conditionSet.happy
    {
      c := status.GetCondition(conditionSet.happy);
    }

    /** True exactly when the top-level condition exists and is True. */
    method IsHappy() returns (happy: bool)
      ensures happy == Happy(status.conditions, conditionSet)
      ensures happy ==> exists i :: 0 <= i < |status.conditions| &&
                         status.conditions[i].condType == conditionSet.happy &&
                         status.conditions[i].status == ConditionTrue
      ensures UniqueTypes(status.conditions) && !happy ==>
                forall i :: 0 <= i < |status.conditions| && status.conditions[i].condType == conditionSet.happy ==>
                  status.conditions[i].status != ConditionTrue
    {
      var c := GetTopLevelCondition();
      happy := c.Some? && c.value.status == ConditionTrue;
      if UniqueTypes(status.conditions) && !happy {
        forall i | 0 <= i < |status.conditions| && status.conditions[i].condType == conditionSet.happy
          ensures status.conditions[i].status != ConditionTrue
        {
          FindUnique(status.conditions, i);
        }
      }
    }

    /** `SetCondition`: drop every condition of `cond`'s type, add `cond`, and
        sort the list by type. */
    method SetCondition(cond: Condition)
      modifies status
      ensures status.conditions == Upsert(old(status.conditions), cond)
      ensures status.observedGeneration == old(status.observedGeneration) && status.annotations == old(status.annotations)
    {
      var old_ := status.conditions;
      var kept: seq<Condition> := [];
      var i := 0;
      while i < |old_|
        invariant 0 <= i <= |old_|
        invariant kept == Remove(old_[..i], cond.condType)
      {
        assert old_[..i + 1] == old_[..i] + [old_[i]];
        if old_[i].condType != cond.condType {
          kept := kept + [old_[i]];
        }
        i := i + 1;
      }
      assert old_[..i] == old_;
      status.SetConditions(SortByType(kept + [cond]));
    }

    /** `initializeTerminalCondition`: add `t` with status `st` unless present. */
    method InitializeTerminalCondition(t: ConditionType, st: ConditionStatus)
      modifies status
      ensures status.conditions == InitTerminal(old(status.conditions), t, st)
      ensures status.observedGeneration == old(status.observedGeneration) && status.annotations == old(status.annotations)
    {
      var c := GetCondition(t);
      if c.Some? {
        return;
      }
      SetCondition(Condition(t, st, "", ""));
    }

    /** The loop of `InitializeConditions`: add every missing dependent with status `st`. */
    method InitializeDependents(st: ConditionStatus)
      modifies status
      ensures status.conditions == InitDependents(old(status.conditions), conditionSet.dependents, st)
      ensures status.observedGeneration == old(status.observedGeneration) && status.annotations == old(status.annotations)
    {
      var deps := conditionSet.dependents;
      var i := 0;
      while i < |deps|
        invariant 0 <= i <= |deps|
        invariant status.conditions == InitDependents(old(status.conditions), deps[..i], st)
        invariant status.observedGeneration == old(status.observedGeneration)
        invariant status.annotations == old(status.annotations)
      {
        InitDependentsSnoc(old(status.conditions), deps, i, st);
        InitializeTerminalCondition(deps[i], st);
        i := i + 1;
      }
      assert deps[..i] == deps;
    }

    /** `InitializeConditions`: add the top-level condition (Unknown) when it
        is missing, then every missing dependent, Unknown unless the
        top-level condition is already True; present conditions are kept. */
    method InitializeConditions()
      modifies status
      ensures status.conditions == Initialized(old(status.conditions), conditionSet)
      ensures status.observedGeneration == old(status.observedGeneration) && status.annotations == old(status.annotations)
      ensures old(status.Valid()) ==> status.Valid()
    {
      var happy := GetCondition(conditionSet.happy);
      var st := if IsTrue(happy) then ConditionTrue else ConditionUnknown;
      if happy.None? {
        SetCondition(Condition(conditionSet.happy, ConditionUnknown, "", ""));
      }
      InitializeDependents(st);
    }

    /** The first dependent, in declaration order, stored with status `st`. */
    method FindDependentWith(st: ConditionStatus) returns (c: Option<Condition>)
      ensures c == FirstDependentWith(status.conditions, conditionSet.dependents, st)
    {
      var deps := conditionSet.dependents;
      var i := 0;
      while i < |deps|
        invariant 0 <= i <= |deps|
        invariant FirstDependentWith(status.conditions, deps, st) == FirstDependentWith(status.conditions, deps[i..], st)
      {
        assert deps[i..][1..] == deps[i + 1..];
        var d := GetCondition(deps[i]);
        if HasStatus(d, st) {
          return d;
        }
        i := i + 1;
      }
      return None;
    }

    /** The recomputation of the top-level condition: a False dependent
        outranks an Unknown one, and an Unknown or missing one outranks a True
        one. */
    method RecomputedTopLevel() returns (top: Condition)
      ensures top == Aggregate(status.conditions, conditionSet)
    {
      var failed := FindDependentWith(ConditionFalse);
      if failed.Some? {
        return Condition(conditionSet.happy, ConditionFalse, failed.value.reason, failed.value.message);
      }
      var unknown := FindDependentWith(ConditionUnknown);
      if unknown.Some? {
        return Condition(conditionSet.happy, ConditionUnknown, unknown.value.reason, unknown.value.message);
      }
      var deps := conditionSet.dependents;
      var i := 0;
      while i < |deps|
        invariant 0 <= i <= |deps|
        invariant forall j :: 0 <= j < i ==> IsTrue(Find(status.conditions, deps[j]))
      {
        var d := GetCondition(deps[i]);
        if !IsTrue(d) {
          // Neither False nor Unknown, so the dependent was never initialized.
          return Condition(conditionSet.happy, ConditionUnknown, "", "");
        }
        i := i + 1;
      }
      return TrueCondition(conditionSet.happy);
    }

    /** `MarkTrue(t)`: set `t` True; unless `t` is the top-level type, then
        recompute the top-level condition from the dependents. */
    method MarkTrue(t: ConditionType)
      modifies status
      ensures status.conditions == MarkedTrue(old(status.conditions), conditionSet, t)
      ensures status.observedGeneration == old(status.observedGeneration) && status.annotations == old(status.annotations)
      ensures old(status.Valid()) ==> status.Valid()
    {
      SetCondition(TrueCondition(t));
      if t != conditionSet.happy {
        var top := RecomputedTopLevel();
        SetCondition(top);
      }
    }

    /** `MarkFalse(t, reason, message)`: set `t` False; when `t` is a
        dependent, also set the top-level condition False with the same
        reason and message. */
    method MarkFalse(t: ConditionType, reason: string, message: string)
      modifies status
      ensures status.conditions == MarkedFalse(old(status.conditions), conditionSet, t, reason, message)
      ensures status.observedGeneration == old(status.observedGeneration) && status.annotations == old(status.annotations)
      ensures old(status.Valid()) ==> status.Valid()
    {
      var dependent := false;
      var deps := conditionSet.dependents;
      var i := 0;
      while i < |deps|
        invariant 0 <= i <= |deps|
        invariant dependent <==> t in deps[..i]
      {
        assert deps[..i + 1] == deps[..i] + [deps[i]];
        if deps[i] == t {
          dependent := true;
        }
        i := i + 1;
      }
      assert deps[..i] == deps;
      SetCondition(Condition(t, ConditionFalse, reason, message));
      if dependent {
        SetCondition(Condition(conditionSet.happy, ConditionFalse, reason, message));
      }
    }
  }
}
