/** The condition data model of the `apis` package (conditions, condition sets
    naming a top-level type and its dependents) and the value-level meaning of
    every operation of the condition manager: each manager method in
    `managers.dfy` is proved to turn the condition list `cs` into the list a
    function of this module computes from `cs`. */
module Conditions {
  import opened Wrappers
  import opened GoStrings

  /** An opaque identifier of one aspect of a resource's health. */
  type ConditionType = string

  /** The top-level type of long-running resources. */
  const ConditionReady: ConditionType := "Ready"
  /** The top-level type of run-to-completion resources. */
  const ConditionSucceeded: ConditionType := "Succeeded"

  /** Three-valued: Unknown is the initial state and is distinct from absence. */
  datatype ConditionStatus = ConditionTrue | ConditionFalse | ConditionUnknown

  datatype Condition = Condition(condType: ConditionType, status: ConditionStatus, reason: string, message: string)

  /** The condition a manager stores when it marks `t` True: reason and message cleared. */
  function TrueCondition(t: ConditionType): (c: Condition) {
    Condition(t, ConditionTrue, "", "")
  }

  /** Nil-safe test on a looked-up condition, as `(*Condition).IsTrue` is. */
  predicate IsTrue(c: Option<Condition>) {
    c.Some? && c.value.status == ConditionTrue
  }

  predicate HasStatus(c: Option<Condition>, st: ConditionStatus) {
    c.Some? && c.value.status == st
  }

  /** No two conditions of a list share a type. */
  predicate UniqueTypes(cs: seq<Condition>) {
    forall i, j :: 0 <= i < j < |cs| ==> cs[i].condType != cs[j].condType
  }

  // ---------------------------------------------------------------------------
  // Looking conditions up and replacing them

  /** The first condition of type `t`, or None when there is none. */
  function Find(cs: seq<Condition>, t: ConditionType): (r: Option<Condition>)
    ensures r.Some? ==> r.value in cs && r.value.condType == t
    ensures r.None? <==> forall i :: 0 <= i < |cs| ==> cs[i].condType != t
  {
    if cs == [] then None
    else if cs[0].condType == t then Some(cs[0])
    else Find(cs[1..], t)
  }

  /** Find returns the first condition of the requested type. */
  lemma {:induction false} FindFirst(cs: seq<Condition>, i: nat)
    requires i < |cs|
    requires forall j :: 0 <= j < i ==> cs[j].condType != cs[i].condType
    ensures Find(cs, cs[i].condType) == Some(cs[i])
  {
    if i > 0 {
      assert cs[0].condType != cs[i].condType;
      FindFirst(cs[1..], i - 1);
    }
  }

  /** A found condition is the first of its type in the list. */
  lemma {:induction false} FindIndex(cs: seq<Condition>, t: ConditionType) returns (i: nat)
    requires Find(cs, t).Some?
    ensures i < |cs| && Find(cs, t) == Some(cs[i])
    ensures forall j :: 0 <= j < i ==> cs[j].condType != t
  {
    if cs[0].condType == t {
      i := 0;
    } else {
      var k := FindIndex(cs[1..], t);
      i := k + 1;
    }
  }

  /** In a list with unique types, Find returns exactly the stored condition. */
  lemma FindUnique(cs: seq<Condition>, i: nat)
    requires UniqueTypes(cs) && i < |cs|
    ensures Find(cs, cs[i].condType) == Some(cs[i])
  {
    FindFirst(cs, i);
  }

  lemma {:induction false} FindAppend(a: seq<Condition>, b: seq<Condition>, t: ConditionType)
    ensures Find(a + b, t) == if Find(a, t).Some? then Find(a, t) else Find(b, t)
  {
    if a != [] {
      assert (a + b)[0] == a[0];
      assert (a + b)[1..] == a[1..] + b;
      FindAppend(a[1..], b, t);
    } else {
      assert a + b == b;
    }
  }

  /** The list without any condition of type `t` (the filter of `SetCondition`):
      a lookup of any other type is not affected. */
  function Remove(cs: seq<Condition>, t: ConditionType): (r: seq<Condition>)
    ensures forall c :: c in r ==> c in cs && c.condType != t
    ensures forall u :: u != t ==> Find(r, u) == Find(cs, u)
    ensures UniqueTypes(cs) ==> UniqueTypes(r)
    decreases |cs|
  {
    if cs == [] then []
    else
      var last := cs[|cs| - 1];
      var init := cs[..|cs| - 1];
      assert cs == init + [last];
      var rest := Remove(init, t);
      var r := if last.condType == t then rest else rest + [last];
      assert forall u :: u != t ==> Find(r, u) == Find(cs, u) by {
        forall u | u != t ensures Find(r, u) == Find(cs, u) {
          FindAppend(init, [last], u);
          if last.condType != t {
            FindAppend(rest, [last], u);
          }
        }
      }
      r
  }

  /** No condition is stored after one whose type is greater: the order the
      engine keeps its condition list in. */
  predicate TypeSorted(cs: seq<Condition>) {
    forall i, j :: 0 <= i < j < |cs| ==> !StrLess(cs[j].condType, cs[i].condType)
  }

  /** `c` placed before the first condition whose type is greater, so after
      every condition of its own type: one step of a stable sort by type. */
  function InsertByType(c: Condition, cs: seq<Condition>): (r: seq<Condition>)
    ensures |r| == |cs| + 1
    ensures multiset(r) == multiset(cs) + multiset{c}
    ensures forall x :: x in r <==> x in cs || x == c
    decreases |cs|
  {
    if cs == [] || StrLess(c.condType, cs[0].condType) then [c] + cs
    else
      assert cs == [cs[0]] + cs[1..];
      [cs[0]] + InsertByType(c, cs[1..])
  }

  lemma {:induction false} InsertByTypeSorted(c: Condition, cs: seq<Condition>)
    requires TypeSorted(cs)
    ensures TypeSorted(InsertByType(c, cs))
    decreases |cs|
  {
    if cs == [] || StrLess(c.condType, cs[0].condType) {
      forall k | 0 <= k < |cs|
        ensures !StrLess(cs[k].condType, c.condType)
      {
        if StrLess(cs[k].condType, c.condType) {
          StrLessTransitive(cs[k].condType, c.condType, cs[0].condType);
          if k == 0 {
            StrLessIrreflexive(cs[0].condType);
          }
        }
      }
      var r := [c] + cs;
      forall i, j | 0 <= i < j < |r|
        ensures !StrLess(r[j].condType, r[i].condType)
      {
        assert r[j] == cs[j - 1];
        if i > 0 {
          assert r[i] == cs[i - 1];
        }
      }
    } else {
      var t := cs[1..];
      InsertByTypeSorted(c, t);
      var r := InsertByType(c, t);
      forall j | 0 <= j < |r|
        ensures !StrLess(r[j].condType, cs[0].condType)
      {
        assert r[j] in r;
        if r[j] != c {
          assert r[j] in t;
        }
      }
    }
  }

  /** Inserting into a sorted list finds what appending finds: `c` is placed
      after every condition of its own type. */
  lemma {:induction false} InsertByTypeFind(c: Condition, cs: seq<Condition>, u: ConditionType)
    requires TypeSorted(cs)
    ensures Find(InsertByType(c, cs), u) == Find(cs + [c], u)
    decreases |cs|
  {
    FindAppend(cs, [c], u);
    if cs == [] || StrLess(c.condType, cs[0].condType) {
      if c.condType == u && cs != [] {
        forall k | 0 <= k < |cs|
          ensures cs[k].condType != u
        {
          if k == 0 {
            StrLessIrreflexive(u);
          }
        }
      }
    } else {
      InsertByTypeFind(c, cs[1..], u);
      FindAppend(cs[1..], [c], u);
    }
  }

  /** Inserting a condition of a new type keeps the types unique. */
  lemma {:induction false} InsertByTypeUnique(c: Condition, cs: seq<Condition>)
    requires UniqueTypes(cs) && Find(cs, c.condType).None?
    ensures UniqueTypes(InsertByType(c, cs))
    decreases |cs|
  {
    if cs != [] && !StrLess(c.condType, cs[0].condType) {
      var t := cs[1..];
      InsertByTypeUnique(c, t);
      var r := InsertByType(c, t);
      forall j | 0 <= j < |r|
        ensures r[j].condType != cs[0].condType
      {
        assert r[j] in r;
        if r[j] != c {
          assert r[j] in t;
          var k :| 0 <= k < |t| && t[k] == r[j];
          assert cs[k + 1] == r[j];
        }
      }
      assert InsertByType(c, cs) == [cs[0]] + r;
    }
  }

  /** A stable insertion sort by type, as `sort.Slice` on the type leaves a
      list whose types are unique. The result is sorted, holds the same
      conditions as often as before, every lookup finds what it found before,
      and unique types stay unique. */
  function SortByType(cs: seq<Condition>): (r: seq<Condition>)
    ensures multiset(r) == multiset(cs)
    ensures TypeSorted(r)
    ensures forall u :: Find(r, u) == Find(cs, u)
    ensures UniqueTypes(cs) ==> UniqueTypes(r)
    decreases |cs|
  {
    if cs == [] then []
    else
      var init := cs[..|cs| - 1];
      var last := cs[|cs| - 1];
      assert cs == init + [last];
      var sorted := SortByType(init);
      InsertByTypeSorted(last, sorted);
      assert forall u :: Find(InsertByType(last, sorted), u) == Find(cs, u) by {
        forall u ensures Find(InsertByType(last, sorted), u) == Find(cs, u) {
          InsertByTypeFind(last, sorted, u);
          FindAppend(sorted, [last], u);
          FindAppend(init, [last], u);
        }
      }
      assert UniqueTypes(cs) ==> UniqueTypes(InsertByType(last, sorted)) by {
        if UniqueTypes(cs) {
          assert Find(init, last.condType).None?;
          InsertByTypeUnique(last, sorted);
        }
      }
      InsertByType(last, sorted)
  }

  /** The condition list after `SetCondition(c)`: every condition of c's type
      gives way to `c`, and the list is sorted by type again. Nothing else
      changes. */
  function Upsert(cs: seq<Condition>, c: Condition): (r: seq<Condition>)
    ensures forall u :: Find(r, u) == if u == c.condType then Some(c) else Find(cs, u)
    ensures TypeSorted(r)
    ensures UniqueTypes(cs) ==> UniqueTypes(r)
  {
    var kept := Remove(cs, c.condType);
    assert forall u :: Find(kept + [c], u) == if u == c.condType then Some(c) else Find(cs, u) by {
      forall u ensures Find(kept + [c], u) == if u == c.condType then Some(c) else Find(cs, u) {
        FindAppend(kept, [c], u);
      }
    }
    SortByType(kept + [c])
  }

  // ---------------------------------------------------------------------------
  // Condition sets

  /** A top-level ("happy") type and the dependent types it aggregates. */
  datatype ConditionSet = ConditionSet(happy: ConditionType, dependents: seq<ConditionType>)

  /** What the set constructor guarantees: the top-level type is not a
      dependent, and no dependent is listed twice. */
  predicate ValidSet(s: ConditionSet) {
    && s.happy !in s.dependents
    && forall i, j :: 0 <= i < j < |s.dependents| ==> s.dependents[i] != s.dependents[j]
  }

  /** The dependents kept by the set constructor: those other than `happy`, each
      once, in order of first occurrence. */
  function Dedup(happy: ConditionType, ds: seq<ConditionType>): (r: seq<ConditionType>)
    ensures forall d :: d in r <==> d in ds && d != happy
    ensures forall i, j :: 0 <= i < j < |r| ==> r[i] != r[j]
    decreases |ds|
  {
    if ds == [] then []
    else
      var prev := Dedup(happy, ds[..|ds| - 1]);
      var d := ds[|ds| - 1];
      assert ds == ds[..|ds| - 1] + [d];
      if d == happy || d in prev then prev else prev + [d]
  }

  /** Dependents that are already distinct and exclude `happy` are kept as given. */
  lemma {:induction false} DedupDistinct(happy: ConditionType, ds: seq<ConditionType>)
    requires happy !in ds
    requires forall i, j :: 0 <= i < j < |ds| ==> ds[i] != ds[j]
    ensures Dedup(happy, ds) == ds
    decreases |ds|
  {
    if ds != [] {
      var init := ds[..|ds| - 1];
      assert ds == init + [ds[|ds| - 1]];
      DedupDistinct(happy, init);
      assert ds[|ds| - 1] !in init;
    }
  }

  function NewConditionSet(happy: ConditionType, ds: seq<ConditionType>): (r: ConditionSet)
    ensures r.happy == happy && ValidSet(r)
    ensures forall d :: d in r.dependents <==> d in ds && d != happy
  {
    ConditionSet(happy, Dedup(happy, ds))
  }

  /** The preset for long-running resources: top-level type Ready. */
  function NewLivingConditionSet(ds: seq<ConditionType>): (r: ConditionSet)
    ensures r.happy == ConditionReady && ValidSet(r)
    ensures forall d :: d in r.dependents <==> d in ds && d != ConditionReady
  {
    NewConditionSet(ConditionReady, ds)
  }

  /** The preset for run-to-completion resources: top-level type Succeeded. */
  function NewBatchConditionSet(ds: seq<ConditionType>): (r: ConditionSet)
    ensures r.happy == ConditionSucceeded && ValidSet(r)
    ensures forall d :: d in r.dependents <==> d in ds && d != ConditionSucceeded
  {
    NewConditionSet(ConditionSucceeded, ds)
  }

  // ---------------------------------------------------------------------------
  // Initialization

  /** `initializeTerminalCondition`: add `t` with status `st` unless present;
      a present condition of type `t`, and every other condition, is kept. */
  function InitTerminal(cs: seq<Condition>, t: ConditionType, st: ConditionStatus): (r: seq<Condition>)
    ensures Find(r, t) == if Find(cs, t).Some? then Find(cs, t) else Some(Condition(t, st, "", ""))
    ensures Find(cs, t).Some? ==> r == cs
    ensures forall u :: u != t ==> Find(r, u) == Find(cs, u)
    ensures UniqueTypes(cs) ==> UniqueTypes(r)
    ensures TypeSorted(cs) ==> TypeSorted(r)
  {
    if Find(cs, t).Some? then cs else Upsert(cs, Condition(t, st, "", ""))
  }

  /** InitTerminal applied to every type of `deps`, in order: the last type
      is added to what the ones before it left. */
  function InitDependents(cs: seq<Condition>, deps: seq<ConditionType>, st: ConditionStatus): (r: seq<Condition>)
    decreases |deps|
  {
    if deps == [] then cs
    else InitTerminal(InitDependents(cs, deps[..|deps| - 1], st), deps[|deps| - 1], st)
  }

  /** One more dependent: the prefix of `deps` up to `i` followed by `deps[i]`. */
  lemma InitDependentsSnoc(cs: seq<Condition>, deps: seq<ConditionType>, i: nat, st: ConditionStatus)
    requires i < |deps|
    ensures InitDependents(cs, deps[..i + 1], st) == InitTerminal(InitDependents(cs, deps[..i], st), deps[i], st)
  {
    assert deps[..i + 1][..i] == deps[..i];
  }

  /** Adding the missing dependents keeps the types unique and the list
      sorted by type. */
  lemma {:induction false} InitDependentsKeeps(cs: seq<Condition>, deps: seq<ConditionType>, st: ConditionStatus)
    ensures UniqueTypes(cs) ==> UniqueTypes(InitDependents(cs, deps, st))
    ensures TypeSorted(cs) ==> TypeSorted(InitDependents(cs, deps, st))
    decreases |deps|
  {
    if deps != [] {
      InitDependentsKeeps(cs, deps[..|deps| - 1], st);
    }
  }

  /** The status given to missing dependents: True when the top-level
      condition is already True (that implies every dependent is), else Unknown. */
  function InitStatus(cs: seq<Condition>, s: ConditionSet): (st: ConditionStatus)
    ensures st == ConditionTrue || st == ConditionUnknown
  {
    if IsTrue(Find(cs, s.happy)) then ConditionTrue else ConditionUnknown
  }

  /** Missing dependents are added True exactly when the first stored
      condition of the top-level type is True. */
  lemma InitStatusTrue(cs: seq<Condition>, s: ConditionSet)
    ensures InitStatus(cs, s) == ConditionTrue <==>
              exists i :: 0 <= i < |cs| && cs[i].condType == s.happy && cs[i].status == ConditionTrue &&
                          forall j :: 0 <= j < i ==> cs[j].condType != s.happy
  {
    if InitStatus(cs, s) == ConditionTrue {
      var i := FindIndex(cs, s.happy);
      assert cs[i].condType == s.happy && cs[i].status == ConditionTrue;
    } else {
      forall i | 0 <= i < |cs| && cs[i].condType == s.happy && forall j :: 0 <= j < i ==> cs[j].condType != s.happy
        ensures cs[i].status != ConditionTrue
      {
        FindFirst(cs, i);
      }
    }
  }

  /** The condition list after `InitializeConditions`. */
  function Initialized(cs: seq<Condition>, s: ConditionSet): (r: seq<Condition>)
    ensures UniqueTypes(cs) ==> UniqueTypes(r)
    ensures TypeSorted(cs) ==> TypeSorted(r)
  {
    var withHappy := if Find(cs, s.happy).None? then Upsert(cs, Condition(s.happy, ConditionUnknown, "", "")) else cs;
    InitDependentsKeeps(withHappy, s.dependents, InitStatus(cs, s));
    InitDependents(withHappy, s.dependents, InitStatus(cs, s))
  }

  lemma {:induction false} InitDependentsFind(cs: seq<Condition>, deps: seq<ConditionType>, st: ConditionStatus, u: ConditionType)
    ensures Find(InitDependents(cs, deps, st), u) ==
            if Find(cs, u).Some? then Find(cs, u)
            else if u in deps then Some(Condition(u, st, "", ""))
            else None
    decreases |deps|
  {
    if deps != [] {
      var init := deps[..|deps| - 1];
      assert deps == init + [deps[|deps| - 1]];
      InitDependentsFind(cs, init, st, u);
    }
  }

  /** Initialization never alters a condition that is present and adds exactly
      the missing top-level and dependent conditions. */
  lemma InitializedFind(cs: seq<Condition>, s: ConditionSet, u: ConditionType)
    ensures Find(Initialized(cs, s), u) ==
            if Find(cs, u).Some? then Find(cs, u)
            else if u == s.happy then Some(Condition(u, ConditionUnknown, "", ""))
            else if u in s.dependents then Some(Condition(u, InitStatus(cs, s), "", ""))
            else None
  {
    var withHappy := if Find(cs, s.happy).None? then Upsert(cs, Condition(s.happy, ConditionUnknown, "", "")) else cs;
    InitDependentsFind(withHappy, s.dependents, InitStatus(cs, s), u);
  }

  /** On an empty status, the top-level condition and every dependent are
      created with status Unknown. */
  lemma InitializeEmpty(s: ConditionSet)
    ensures Find(Initialized([], s), s.happy) == Some(Condition(s.happy, ConditionUnknown, "", ""))
    ensures forall d :: d in s.dependents ==> Find(Initialized([], s), d) == Some(Condition(d, ConditionUnknown, "", ""))
  {
    InitializedFind([], s, s.happy);
    forall d | d in s.dependents
      ensures Find(Initialized([], s), d) == Some(Condition(d, ConditionUnknown, "", ""))
    {
      InitializedFind([], s, d);
    }
  }

  /** After initialization the status has a top-level condition, even for a
      set without dependents, and a condition for every dependent. */
  lemma InitializedHasAll(cs: seq<Condition>, s: ConditionSet)
    ensures Find(Initialized(cs, s), s.happy).Some?
    ensures forall d :: d in s.dependents ==> Find(Initialized(cs, s), d).Some?
  {
    InitializedFind(cs, s, s.happy);
    forall d | d in s.dependents ensures Find(Initialized(cs, s), d).Some? {
      InitializedFind(cs, s, d);
    }
  }

  lemma {:induction false} InitDependentsPresent(cs: seq<Condition>, deps: seq<ConditionType>, st: ConditionStatus)
    requires forall d :: d in deps ==> Find(cs, d).Some?
    ensures InitDependents(cs, deps, st) == cs
    decreases |deps|
  {
    if deps != [] {
      var init := deps[..|deps| - 1];
      assert deps == init + [deps[|deps| - 1]];
      InitDependentsPresent(cs, init, st);
    }
  }

  /** Initializing twice gives the same condition list as initializing once. */
  lemma InitializeIdempotent(cs: seq<Condition>, s: ConditionSet)
    ensures Initialized(Initialized(cs, s), s) == Initialized(cs, s)
  {
    var r := Initialized(cs, s);
    InitializedHasAll(cs, s);
    InitDependentsPresent(r, s.dependents, InitStatus(r, s));
  }

  // ---------------------------------------------------------------------------
  // Marking and aggregation

  /** Every dependent other than `t` is present and True. */
  predicate OthersTrue(cs: seq<Condition>, deps: seq<ConditionType>, t: ConditionType) {
    forall i :: 0 <= i < |deps| && deps[i] != t ==> IsTrue(Find(cs, deps[i]))
  }

  /** Every dependent is present and True. */
  predicate DependentsTrue(cs: seq<Condition>, deps: seq<ConditionType>) {
    forall i :: 0 <= i < |deps| ==> IsTrue(Find(cs, deps[i]))
  }

  /** `IsHappy`: the top-level condition exists and is True. */
  predicate Happy(cs: seq<Condition>, s: ConditionSet) {
    IsTrue(Find(cs, s.happy))
  }

  /** The condition of the first dependent, in declaration order, that is
      present with status `st`; None when there is none. */
  function FirstDependentWith(cs: seq<Condition>, deps: seq<ConditionType>, st: ConditionStatus): (r: Option<Condition>)
    ensures r.Some? ==> r.value.status == st && r.value.condType in deps && Find(cs, r.value.condType) == r
    ensures r.None? <==> forall i :: 0 <= i < |deps| ==> !HasStatus(Find(cs, deps[i]), st)
    decreases |deps|
  {
    if deps == [] then None
    else if HasStatus(Find(cs, deps[0]), st) then Find(cs, deps[0])
    else FirstDependentWith(cs, deps[1..], st)
  }

  /** The first match wins: a dependent with status `st` that no earlier
      dependent shares is the one reported. */
  lemma {:induction false} FirstDependentWithIsFirst(cs: seq<Condition>, deps: seq<ConditionType>, st: ConditionStatus, i: nat)
    requires i < |deps| && HasStatus(Find(cs, deps[i]), st)
    requires forall j :: 0 <= j < i ==> !HasStatus(Find(cs, deps[j]), st)
    ensures FirstDependentWith(cs, deps, st) == Find(cs, deps[i])
  {
    if i > 0 {
      assert !HasStatus(Find(cs, deps[0]), st);
      FirstDependentWithIsFirst(cs, deps[1..], st, i - 1);
    }
  }

  /** The top-level condition recomputed from the dependents: False with the
      reason and message of the first False dependent; else Unknown with those
      of the first Unknown dependent; else Unknown without a reason when a
      dependent is missing; else True. */
  function Aggregate(cs: seq<Condition>, s: ConditionSet): (r: Condition)
    ensures r.condType == s.happy
    ensures r.status == ConditionTrue <==> DependentsTrue(cs, s.dependents)
    ensures r.status == ConditionTrue ==> r == TrueCondition(s.happy)
    ensures r.status == ConditionFalse <==>
              exists i :: 0 <= i < |s.dependents| && HasStatus(Find(cs, s.dependents[i]), ConditionFalse)
  {
    var failed := FirstDependentWith(cs, s.dependents, ConditionFalse);
    var unknown := FirstDependentWith(cs, s.dependents, ConditionUnknown);
    if failed.Some? then Condition(s.happy, ConditionFalse, failed.value.reason, failed.value.message)
    else if unknown.Some? then Condition(s.happy, ConditionUnknown, unknown.value.reason, unknown.value.message)
    else if DependentsTrue(cs, s.dependents) then TrueCondition(s.happy)
    else Condition(s.happy, ConditionUnknown, "", "")
  }

  /** The aggregate depends on the dependents' conditions only. */
  lemma {:induction false} FirstDependentWithFrame(a: seq<Condition>, b: seq<Condition>, deps: seq<ConditionType>, st: ConditionStatus)
    requires forall i :: 0 <= i < |deps| ==> Find(a, deps[i]) == Find(b, deps[i])
    ensures FirstDependentWith(a, deps, st) == FirstDependentWith(b, deps, st)
    decreases |deps|
  {
    if deps != [] {
      assert Find(a, deps[0]) == Find(b, deps[0]);
      FirstDependentWithFrame(a, b, deps[1..], st);
    }
  }

  lemma AggregateFrame(a: seq<Condition>, b: seq<Condition>, s: ConditionSet)
    requires forall i :: 0 <= i < |s.dependents| ==> Find(a, s.dependents[i]) == Find(b, s.dependents[i])
    ensures Aggregate(a, s) == Aggregate(b, s)
  {
    FirstDependentWithFrame(a, b, s.dependents, ConditionFalse);
    FirstDependentWithFrame(a, b, s.dependents, ConditionUnknown);
  }

  /** False outranks Unknown and True, and among False dependents the first
      in declaration order gives its reason and message. */
  lemma AggregateFirstFailure(cs: seq<Condition>, s: ConditionSet, i: nat)
    requires i < |s.dependents| && HasStatus(Find(cs, s.dependents[i]), ConditionFalse)
    requires forall j :: 0 <= j < i ==> !HasStatus(Find(cs, s.dependents[j]), ConditionFalse)
    ensures Aggregate(cs, s) ==
            Condition(s.happy, ConditionFalse, Find(cs, s.dependents[i]).value.reason, Find(cs, s.dependents[i]).value.message)
  {
    FirstDependentWithIsFirst(cs, s.dependents, ConditionFalse, i);
  }

  /** With no False dependent, the first Unknown dependent gives its reason
      and message. */
  lemma AggregateFirstUnknown(cs: seq<Condition>, s: ConditionSet, i: nat)
    requires forall j :: 0 <= j < |s.dependents| ==> !HasStatus(Find(cs, s.dependents[j]), ConditionFalse)
    requires i < |s.dependents| && HasStatus(Find(cs, s.dependents[i]), ConditionUnknown)
    requires forall j :: 0 <= j < i ==> !HasStatus(Find(cs, s.dependents[j]), ConditionUnknown)
    ensures Aggregate(cs, s) ==
            Condition(s.happy, ConditionUnknown, Find(cs, s.dependents[i]).value.reason, Find(cs, s.dependents[i]).value.message)
  {
    FirstDependentWithIsFirst(cs, s.dependents, ConditionUnknown, i);
  }

  /** Once `t` is set True, every dependent is True exactly when every
      dependent other than `t` already was. */
  lemma MarkedOthersTrue(cs: seq<Condition>, deps: seq<ConditionType>, t: ConditionType)
    ensures DependentsTrue(Upsert(cs, TrueCondition(t)), deps) <==> OthersTrue(cs, deps, t)
  {
    var marked := Upsert(cs, TrueCondition(t));
    forall i | 0 <= i < |deps|
      ensures IsTrue(Find(marked, deps[i])) <==> deps[i] == t || IsTrue(Find(cs, deps[i]))
    {
    }
  }

  /** The top-level condition set from the dependents after `t` is marked True
      is True exactly when every other dependent was already True. */
  lemma RecomputedHappy(cs: seq<Condition>, s: ConditionSet, t: ConditionType)
    requires t != s.happy
    ensures var marked := Upsert(cs, TrueCondition(t));
            Happy(Upsert(marked, Aggregate(marked, s)), s) <==> OthersTrue(cs, s.dependents, t)
  {
    MarkedOthersTrue(cs, s.dependents, t);
  }

  /** Setting the recomputed top-level condition does not change what it is
      recomputed from, so afterwards it agrees with the dependents. */
  lemma RecomputedAgrees(cs: seq<Condition>, s: ConditionSet)
    ensures s.happy !in s.dependents ==>
              Find(Upsert(cs, Aggregate(cs, s)), s.happy) == Some(Aggregate(Upsert(cs, Aggregate(cs, s)), s))
  {
    if s.happy !in s.dependents {
      AggregateFrame(Upsert(cs, Aggregate(cs, s)), cs, s);
    }
  }

  /** The condition list after `MarkTrue(t)`: `t` becomes True; unless `t` is
      the top-level type itself, the top-level condition is then recomputed
      from the dependents, so it agrees with them afterwards. */
  function MarkedTrue(cs: seq<Condition>, s: ConditionSet, t: ConditionType): (r: seq<Condition>)
    ensures Find(r, t) == Some(TrueCondition(t))
    ensures t != s.happy ==> (Happy(r, s) <==> OthersTrue(cs, s.dependents, t))
    ensures t != s.happy && s.happy !in s.dependents ==> Find(r, s.happy) == Some(Aggregate(r, s))
    ensures forall u :: u != t && u != s.happy ==> Find(r, u) == Find(cs, u)
    ensures UniqueTypes(cs) ==> UniqueTypes(r)
    ensures TypeSorted(r)
  {
    var marked := Upsert(cs, TrueCondition(t));
    if t == s.happy then marked
    else
      RecomputedHappy(cs, s, t);
      RecomputedAgrees(marked, s);
      Upsert(marked, Aggregate(marked, s))
  }

  /** The condition list after `MarkFalse(t, reason, message)`: `t` becomes
      False, and when `t` is a dependent the top-level condition becomes False
      with the same reason and message. */
  function MarkedFalse(cs: seq<Condition>, s: ConditionSet, t: ConditionType, reason: string, message: string): (r: seq<Condition>)
    ensures Find(r, t) == Some(Condition(t, ConditionFalse, reason, message))
    ensures t in s.dependents ==> Find(r, s.happy) == Some(Condition(s.happy, ConditionFalse, reason, message))
    ensures forall u :: u != t && (u != s.happy || t !in s.dependents) ==> Find(r, u) == Find(cs, u)
    ensures UniqueTypes(cs) ==> UniqueTypes(r)
    ensures TypeSorted(r)
  {
    var marked := Upsert(cs, Condition(t, ConditionFalse, reason, message));
    if t in s.dependents then Upsert(marked, Condition(s.happy, ConditionFalse, reason, message)) else marked
  }

  /** A False dependent makes the resource unhappy. */
  lemma MarkFalseDependentIsUnhappy(cs: seq<Condition>, s: ConditionSet, t: ConditionType, reason: string, message: string)
    requires t in s.dependents
    ensures !Happy(MarkedFalse(cs, s, t, reason, message), s)
    ensures HasStatus(Find(MarkedFalse(cs, s, t, reason, message), t), ConditionFalse)
  {
  }

  /** A failure outranks a later success: once dependent `f` is marked False,
      marking another dependent True leaves the top-level condition False with
      f's reason and message, provided no dependent declared before `f` is
      False. */
  lemma FailureOutranksTrue(cs: seq<Condition>, s: ConditionSet, i: nat, t: ConditionType, reason: string, message: string)
    requires ValidSet(s) && i < |s.dependents| && t in s.dependents && t != s.dependents[i]
    requires forall j :: 0 <= j < i ==> !HasStatus(Find(cs, s.dependents[j]), ConditionFalse)
    ensures Find(MarkedTrue(MarkedFalse(cs, s, s.dependents[i], reason, message), s, t), s.happy) ==
            Some(Condition(s.happy, ConditionFalse, reason, message))
  {
    var f := s.dependents[i];
    var failed := MarkedFalse(cs, s, f, reason, message);
    var r := MarkedTrue(failed, s, t);
    assert t != s.happy && f != s.happy;
    assert Find(failed, f) == Some(Condition(f, ConditionFalse, reason, message));
    assert Find(r, f) == Find(failed, f);
    forall j | 0 <= j < i
      ensures !HasStatus(Find(r, s.dependents[j]), ConditionFalse)
    {
      var d := s.dependents[j];
      assert d != f && d != s.happy;
      if d == t {
        assert Find(r, d) == Some(TrueCondition(t));
      } else {
        assert Find(r, d) == Find(failed, d);
        assert Find(failed, d) == Find(cs, d);
      }
    }
    assert Find(r, s.happy) == Some(Aggregate(r, s));
    AggregateFirstFailure(r, s, i);
  }

  /** With a single dependent, marking it True makes it and the top-level
      condition True, whatever they were before. */
  lemma MarkTrueOnlyDependent(cs: seq<Condition>, s: ConditionSet, t: ConditionType)
    requires s.dependents == [t] && t != s.happy
    ensures Find(MarkedTrue(cs, s, t), t) == Some(TrueCondition(t))
    ensures Find(MarkedTrue(cs, s, t), s.happy) == Some(TrueCondition(s.happy))
    ensures Happy(MarkedTrue(cs, s, t), s)
  {
    assert OthersTrue(cs, s.dependents, t);
  }

  /** MarkTrue applied to each type of `ts` in turn. */
  function MarkAllTrue(cs: seq<Condition>, s: ConditionSet, ts: seq<ConditionType>): (r: seq<Condition>)
    decreases |ts|
  {
    if ts == [] then cs else MarkedTrue(MarkAllTrue(cs, s, ts[..|ts| - 1]), s, ts[|ts| - 1])
  }

  /** MarkTrue never turns a True condition other than the top-level one into
      anything else. (The top-level one can turn: it follows the dependents.) */
  lemma MarkTrueMonotone(cs: seq<Condition>, s: ConditionSet, t: ConditionType, u: ConditionType)
    requires u != s.happy && IsTrue(Find(cs, u))
    ensures IsTrue(Find(MarkedTrue(cs, s, t), u))
  {
  }

  /** Every type that was marked True is still True afterwards. */
  lemma {:induction false} MarkAllTrueKeepsTrue(cs: seq<Condition>, s: ConditionSet, ts: seq<ConditionType>, u: ConditionType)
    requires u in ts && u != s.happy
    ensures IsTrue(Find(MarkAllTrue(cs, s, ts), u))
    decreases |ts|
  {
    var init := ts[..|ts| - 1];
    var last := ts[|ts| - 1];
    assert ts == init + [last];
    if u != last {
      MarkAllTrueKeepsTrue(cs, s, init, u);
      MarkTrueMonotone(MarkAllTrue(cs, s, init), s, last, u);
    }
  }

  /** Once every dependent but `last` has been marked True, so are all the others. */
  lemma OthersMarkedTrue(cs: seq<Condition>, s: ConditionSet, init: seq<ConditionType>, last: ConditionType)
    requires s.happy !in s.dependents
    requires forall d :: d in s.dependents ==> d in init || d == last
    ensures OthersTrue(MarkAllTrue(cs, s, init), s.dependents, last)
  {
    forall i | 0 <= i < |s.dependents| && s.dependents[i] != last
      ensures IsTrue(Find(MarkAllTrue(cs, s, init), s.dependents[i]))
    {
      MarkAllTrueKeepsTrue(cs, s, init, s.dependents[i]);
    }
  }

  /** Marking every dependent True (in any order, among any other marks) makes
      the resource happy. */
  lemma {:induction false} AllDependentsTrueIsHappy(cs: seq<Condition>, s: ConditionSet, ts: seq<ConditionType>)
    requires ts != [] && s.happy !in s.dependents
    requires forall d :: d in s.dependents ==> d in ts
    ensures Happy(MarkAllTrue(cs, s, ts), s)
    ensures DependentsTrue(MarkAllTrue(cs, s, ts), s.dependents)
  {
    var init := ts[..|ts| - 1];
    var last := ts[|ts| - 1];
    assert ts == init + [last];
    OthersMarkedTrue(cs, s, init, last);
    forall i | 0 <= i < |s.dependents|
      ensures IsTrue(Find(MarkAllTrue(cs, s, ts), s.dependents[i]))
    {
      MarkAllTrueKeepsTrue(cs, s, ts, s.dependents[i]);
    }
  }
}
