/** The resource status of the duck types (`apis/duck/v1beta1` and `apis/duck/v1`
    share this shape): a list of conditions, an observed generation and
    optional annotations, updated in place through a pointer. Also the
    narrowing of a status to the older shape that only knows the top-level
    condition. */
module DuckStatus {
  import opened Wrappers
  import opened Conditions
  import opened GoStrings

  /** A snapshot of a status's fields. */
  datatype StatusValue = StatusValue(
    conditions: seq<Condition>,
    observedGeneration: int,
    annotations: Option<map<string, string>>)

  /** The zero value `&Status{}`: no conditions, generation 0, nil annotations. */
  const EmptyStatus := StatusValue([], 0, None)

  /** Whether `t` is a top-level type the narrowing can carry over. */
  predicate IsTopLevelType(t: ConditionType) {
    t == ConditionReady || t == ConditionSucceeded
  }

  /** The first Ready or Succeeded condition of the list. */
  function FindTopLevel(cs: seq<Condition>): (r: Option<Condition>)
    ensures r.Some? ==> r.value in cs && IsTopLevelType(r.value.condType)
    ensures r.None? <==> forall i :: 0 <= i < |cs| ==> !IsTopLevelType(cs[i].condType)
  {
    if cs == [] then None
    else if IsTopLevelType(cs[0].condType) then Some(cs[0])
    else FindTopLevel(cs[1..])
  }

  /** When the list holds no condition of the other top-level type, the
      narrowing picks exactly the condition Find gives for `t`. */
  lemma {:induction false} FindTopLevelIsFind(cs: seq<Condition>, t: ConditionType)
    requires IsTopLevelType(t)
    requires forall i :: 0 <= i < |cs| ==> IsTopLevelType(cs[i].condType) ==> cs[i].condType == t
    ensures FindTopLevel(cs) == Find(cs, t)
  {
    if cs != [] {
      FindTopLevelIsFind(cs[1..], t);
    }
  }

  /** The sink after `source.ConvertTo(sink)`: the generation is copied, the
      annotations are copied when the source has any, and the condition list
      becomes the source's top-level condition alone (left as it was when the
      source has none). */
  function Narrowed(source: StatusValue, sink: StatusValue): (r: StatusValue)
    ensures r.observedGeneration == source.observedGeneration
    ensures source.annotations.Some? ==> r.annotations == source.annotations
    ensures source.annotations.None? ==> r.annotations == sink.annotations
    ensures (forall i :: 0 <= i < |source.conditions| ==> !IsTopLevelType(source.conditions[i].condType)) ==>
              r.conditions == sink.conditions
    ensures forall i :: 0 <= i < |source.conditions| && IsTopLevelType(source.conditions[i].condType) &&
                        (forall j :: 0 <= j < i ==> !IsTopLevelType(source.conditions[j].condType)) ==>
              r.conditions == [source.conditions[i]]
  {
    assert forall i :: 0 <= i < |source.conditions| && IsTopLevelType(source.conditions[i].condType) &&
                       (forall j :: 0 <= j < i ==> !IsTopLevelType(source.conditions[j].condType)) ==>
             FindTopLevel(source.conditions) == Some(source.conditions[i]) by {
      forall i | 0 <= i < |source.conditions| && IsTopLevelType(source.conditions[i].condType) &&
                 (forall j :: 0 <= j < i ==> !IsTopLevelType(source.conditions[j].condType))
        ensures FindTopLevel(source.conditions) == Some(source.conditions[i])
      {
        FindTopLevelFirst(source.conditions, i);
      }
    }
    StatusValue(
      match FindTopLevel(source.conditions)
      case Some(c) => [c]
      case None => sink.conditions,
      source.observedGeneration,
      if source.annotations.Some? then source.annotations else sink.annotations)
  }

  /** Narrowing into a fresh status yields exactly one condition, the source's
      top-level one, and copies the generation and the annotations (nil stays
      nil). */
  lemma NarrowToEmpty(source: StatusValue, t: ConditionType)
    requires IsTopLevelType(t) && Find(source.conditions, t).Some?
    ensures |Narrowed(source, EmptyStatus).conditions| == 1
    ensures Narrowed(source, EmptyStatus).conditions[0] in source.conditions
    ensures IsTopLevelType(Narrowed(source, EmptyStatus).conditions[0].condType)
    ensures Narrowed(source, EmptyStatus).observedGeneration == source.observedGeneration
    ensures Narrowed(source, EmptyStatus).annotations == source.annotations
  {
    var c := Find(source.conditions, t).value;
    assert c in source.conditions;
  }

  /** Only the aggregate survives: a narrowed fresh status holds no
      condition of a non-top-level (dependent) type. */
  lemma NarrowDropsDependents(source: StatusValue, u: ConditionType)
    requires !IsTopLevelType(u)
    ensures Find(Narrowed(source, EmptyStatus).conditions, u).None?
  {
  }

  /** For a set whose top-level type is Ready or Succeeded, over a source that
      does not also carry the other of the two, the narrowed status has the
      same top-level condition, so it is happy exactly when the source is. */
  lemma NarrowKeepsTopLevel(source: StatusValue, sink: StatusValue, s: ConditionSet)
    requires IsTopLevelType(s.happy) && Find(source.conditions, s.happy).Some?
    requires forall i :: 0 <= i < |source.conditions| ==>
               IsTopLevelType(source.conditions[i].condType) ==> source.conditions[i].condType == s.happy
    ensures Find(Narrowed(source, sink).conditions, s.happy) == Find(source.conditions, s.happy)
    ensures Happy(Narrowed(source, sink).conditions, s) == Happy(source.conditions, s)
  {
    FindTopLevelIsFind(source.conditions, s.happy);
  }

  /** In a list sorted by type, as every manager operation leaves it, Ready
      sorts before Succeeded: whenever a Ready condition is stored, the
      narrowing carries it, so the narrowed status of a living set has the
      source's top-level condition and is happy exactly when the source is. */
  lemma NarrowSortedKeepsReady(source: StatusValue, sink: StatusValue, s: ConditionSet)
    requires s.happy == ConditionReady
    requires TypeSorted(source.conditions) && Find(source.conditions, ConditionReady).Some?
    ensures Narrowed(source, sink).conditions == [Find(source.conditions, ConditionReady).value]
    ensures Happy(Narrowed(source, sink).conditions, s) == Happy(source.conditions, s)
  {
    var cs := source.conditions;
    var i := FindIndex(cs, ConditionReady);
    forall j | 0 <= j < i
      ensures !IsTopLevelType(cs[j].condType)
    {
      assert !StrLess(cs[i].condType, cs[j].condType);
      assert StrLess(ConditionReady, ConditionSucceeded);
    }
    FindTopLevelFirst(cs, i);
  }

  /** With a single dependent, marking it True leaves a list whose narrowing
      is one condition, and a happy one, whatever the list held before. */
  lemma NarrowAfterMarkTrueOnlyDependent(cs: seq<Condition>, s: ConditionSet, t: ConditionType,
                                         generation: int, annotations: Option<map<string, string>>, sink: StatusValue)
    requires s.happy == ConditionReady && s.dependents == [t] && t != s.happy
    ensures |Narrowed(StatusValue(MarkedTrue(cs, s, t), generation, annotations), sink).conditions| == 1
    ensures Happy(Narrowed(StatusValue(MarkedTrue(cs, s, t), generation, annotations), sink).conditions, s)
  {
    MarkTrueOnlyDependent(cs, s, t);
    NarrowSortedKeepsReady(StatusValue(MarkedTrue(cs, s, t), generation, annotations), sink, s);
  }

  class Status {
    var conditions: seq<Condition>
    var observedGeneration: int
    var annotations: Option<map<string, string>>

    /** `&Status{}`. */
    constructor Empty()
      ensures Value() == EmptyStatus
    {
      conditions, observedGeneration, annotations := [], 0, None;
    }

    constructor (conditions: seq<Condition>, observedGeneration: int, annotations: Option<map<string, string>>)
      ensures Value() == StatusValue(conditions, observedGeneration, annotations)
    {
      this.conditions := conditions;
      this.observedGeneration := observedGeneration;
      this.annotations := annotations;
    }

    /** The invariant every manager operation keeps: condition types are unique. */
    ghost predicate Valid()
      reads this
    {
      UniqueTypes(conditions)
    }

    function Value(): StatusValue
      reads this
    {
      StatusValue(conditions, observedGeneration, annotations)
    }

    /** `GetCondition`: the stored condition of type `t`, or None. */
    method GetCondition(t: ConditionType) returns (c: Option<Condition>)
      ensures c == Find(conditions, t)
      ensures c.None? <==> forall i :: 0 <= i < |conditions| ==> conditions[i].condType != t
      ensures UniqueTypes(conditions) ==>
                forall i :: 0 <= i < |conditions| && conditions[i].condType == t ==> c == Some(conditions[i])
    {
      var i := 0;
      while i < |conditions|
        invariant 0 <= i <= |conditions|
        invariant forall j :: 0 <= j < i ==> conditions[j].condType != t
      {
        if conditions[i].condType == t {
          FindFirst(conditions, i);
          c := Some(conditions[i]);
          forall k | 0 <= k < |conditions| && conditions[k].condType == t && UniqueTypes(conditions)
            ensures c == Some(conditions[k])
          {
            FindUnique(conditions, k);
          }
          return;
        }
        i := i + 1;
      }
      c := None;
    }

    /** `SetConditions`: replace the whole condition list. */
    method SetConditions(cs: seq<Condition>)
      modifies this
      ensures Value() == old(Value()).(conditions := cs)
    {
      conditions := cs;
    }

    /** `ConvertTo`: narrow this status into `sink`. The two may be the same
        object: everything is read before anything is written. */
    method ConvertTo(sink: Status)
      modifies sink
      ensures sink.Value() == Narrowed(old(Value()), old(sink.Value()))
      ensures sink != this ==> Value() == old(Value())
    {
      var source := Value();
      sink.observedGeneration := source.observedGeneration;
      if source.annotations.Some? {
        sink.annotations := source.annotations;
      }
      var i := 0;
      while i < |source.conditions|
        invariant 0 <= i <= |source.conditions|
        invariant forall j :: 0 <= j < i ==> !IsTopLevelType(source.conditions[j].condType)
        invariant sink.conditions == old(sink.conditions)
        invariant sink.Value() == Narrowed(source, old(sink.Value())).(conditions := old(sink.conditions))
        invariant sink != this ==> Value() == old(Value())
      {
        var c := source.conditions[i];
        if IsTopLevelType(c.condType) {
          FindTopLevelFirst(source.conditions, i);
          sink.SetConditions([c]);
          return;
        }
        i := i + 1;
      }
    }
  }

  lemma {:induction false} FindTopLevelFirst(cs: seq<Condition>, i: nat)
    requires i < |cs| && IsTopLevelType(cs[i].condType)
    requires forall j :: 0 <= j < i ==> !IsTopLevelType(cs[j].condType)
    ensures FindTopLevel(cs) == Some(cs[i])
  {
    if i > 0 {
      FindTopLevelFirst(cs[1..], i - 1);
    }
  }
}
