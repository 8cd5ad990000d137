/** The patch comparison of the admission-webhook test helpers: both the
    expected and the decoded JSON Patch lists are sorted in place by
    (operation, path), and the sorted lists are compared. */
module PatchComparison {
  import opened Wrappers
  import opened WebhookTesting
  import opened GoStrings

  /** A JSON Patch operation as defined by RFC 6902, section 4: its `op`, its
      `path`, and its value, carried as JSON text. */
  datatype PatchOp = PatchOp(operation: string, path: string, value: string)

  // ---------------------------------------------------------------------------
  // The ordering

  /** The sort key of an operation. */
  function Key(p: PatchOp): (k: (string, string)) {
    (p.operation, p.path)
  }

  /** The less function both sorts use: by operation, then by path. */
  predicate PatchLess(l: PatchOp, r: PatchOp): (less: bool)
    ensures less ==> Key(l) != Key(r)
  {
    StrLessIrreflexive(l.path);
    if l.operation != r.operation then StrLess(l.operation, r.operation)
    else StrLess(l.path, r.path)
  }

  /** Operations with different keys are ordered one way or the other; an
      operation is never less than one with its own key. */
  lemma PatchLessTotal(x: PatchOp, y: PatchOp)
    ensures Key(x) != Key(y) <==> PatchLess(x, y) || PatchLess(y, x)
  {
    if x.operation != y.operation {
      StrLessTotal(x.operation, y.operation);
    } else if x.path != y.path {
      StrLessTotal(x.path, y.path);
    } else {
      StrLessIrreflexive(x.path);
    }
  }

  lemma PatchLessTransitive(x: PatchOp, y: PatchOp, z: PatchOp)
    ensures PatchLess(x, y) && PatchLess(y, z) ==> PatchLess(x, z)
  {
    if PatchLess(x, y) && PatchLess(y, z) {
      if x.operation != y.operation && y.operation != z.operation {
        StrLessTransitive(x.operation, y.operation, z.operation);
        StrLessIrreflexive(x.operation);
      } else if x.operation == y.operation && y.operation == z.operation {
        StrLessTransitive(x.path, y.path, z.path);
      }
    }
  }

  /** The order is a strict weak order: below `y` and `y` not above `z`
      means below `z`. */
  lemma LessThenNotGreater(x: PatchOp, y: PatchOp, z: PatchOp)
    ensures PatchLess(x, y) && !PatchLess(z, y) ==> PatchLess(x, z)
  {
    PatchLessTotal(y, z);
    PatchLessTransitive(x, y, z);
  }

  // ---------------------------------------------------------------------------
  // The sort, as a function

  /** No operation is less than one before it. */
  ghost predicate Sorted(s: seq<PatchOp>) {
    forall i, j :: 0 <= i < j < |s| ==> !PatchLess(s[j], s[i])
  }

  /** `x` placed before the first operation it is less than: after every
      operation with its key, so the insertion is stable. */
  function Insert(x: PatchOp, s: seq<PatchOp>): (r: seq<PatchOp>)
    ensures |r| == |s| + 1
  {
    if s == [] || PatchLess(x, s[0]) then [x] + s
    else [s[0]] + Insert(x, s[1..])
  }

  /** Insertion sort from the front: each operation is inserted into the
      sorted list of those before it. */
  function SortPatches(s: seq<PatchOp>): (r: seq<PatchOp>)
    ensures |r| == |s|
  {
    if s == [] then [] else Insert(s[|s| - 1], SortPatches(s[..|s| - 1]))
  }

  lemma {:induction false} InsertPermutes(x: PatchOp, s: seq<PatchOp>)
    ensures multiset(Insert(x, s)) == multiset(s) + multiset{x}
  {
    if s != [] && !PatchLess(x, s[0]) {
      InsertPermutes(x, s[1..]);
      assert s == [s[0]] + s[1..];
    }
  }

  lemma {:induction false} InsertKeepsSorted(x: PatchOp, s: seq<PatchOp>)
    requires Sorted(s)
    ensures Sorted(Insert(x, s))
  {
    if s == [] || PatchLess(x, s[0]) {
      forall k | 0 <= k < |s|
        ensures !PatchLess(s[k], x)
      {
        PatchLessTransitive(s[k], x, s[0]);
        PatchLessTotal(s[k], s[0]);
      }
      var r := [x] + s;
      forall i, j | 0 <= i < j < |r|
        ensures !PatchLess(r[j], r[i])
      {
        assert r[j] == s[j - 1];
        if i > 0 {
          assert r[i] == s[i - 1];
        }
      }
    } else {
      var t := s[1..];
      InsertKeepsSorted(x, t);
      InsertPermutes(x, t);
      var r := Insert(x, t);
      forall j | 0 <= j < |r|
        ensures !PatchLess(r[j], s[0])
      {
        assert r[j] in multiset(t) + multiset{x};
        if r[j] != x {
          assert r[j] in t;
        }
      }
    }
  }

  /** The sorted list is ordered by (operation, path). */
  lemma {:induction false} SortPatchesSorted(s: seq<PatchOp>)
    ensures Sorted(SortPatches(s))
    decreases |s|
  {
    if s != [] {
      SortPatchesSorted(s[..|s| - 1]);
      InsertKeepsSorted(s[|s| - 1], SortPatches(s[..|s| - 1]));
    }
  }

  /** The sorted list holds the same operations, each as often as before. */
  lemma {:induction false} SortPatchesPermutes(s: seq<PatchOp>)
    ensures multiset(SortPatches(s)) == multiset(s)
    decreases |s|
  {
    if s != [] {
      SortPatchesPermutes(s[..|s| - 1]);
      InsertPermutes(s[|s| - 1], SortPatches(s[..|s| - 1]));
      assert s == s[..|s| - 1] + [s[|s| - 1]];
    }
  }

  /** No two different operations of `s` share a key. */
  ghost predicate KeysUnambiguous(s: seq<PatchOp>) {
    forall x, y :: x in s && y in s && Key(x) == Key(y) ==> x == y
  }

  /** Sorted lists with the same operations and unambiguous keys start with
      the same operation. */
  lemma SortedHeadsEqual(a: seq<PatchOp>, b: seq<PatchOp>)
    requires Sorted(a) && Sorted(b) && multiset(a) == multiset(b)
    requires KeysUnambiguous(a) && a != []
    ensures b != [] && a[0] == b[0]
  {
    assert a[0] in multiset(b);
    assert b[0] in multiset(a);
    var k :| 0 <= k < |b| && b[k] == a[0];
    var m :| 0 <= m < |a| && a[m] == b[0];
    if m > 0 {
      assert !PatchLess(a[m], a[0]);
    }
    if k > 0 {
      assert !PatchLess(b[k], b[0]);
    }
    PatchLessTotal(a[0], b[0]);
  }

  lemma MultisetOfTail(s: seq<PatchOp>)
    requires s != []
    ensures multiset(s[1..]) == multiset(s) - multiset{s[0]}
  {
    assert s == [s[0]] + s[1..];
  }

  /** Sorted lists with the same operations and unambiguous keys are equal. */
  lemma {:induction false} SortedUnique(a: seq<PatchOp>, b: seq<PatchOp>)
    requires Sorted(a) && Sorted(b) && multiset(a) == multiset(b)
    requires KeysUnambiguous(a)
    ensures a == b
    decreases |a|
  {
    if a != [] {
      SortedHeadsEqual(a, b);
      MultisetOfTail(a);
      MultisetOfTail(b);
      assert Sorted(a[1..]) && Sorted(b[1..]);
      assert KeysUnambiguous(a[1..]) by {
        forall x, y | x in a[1..] && y in a[1..] && Key(x) == Key(y)
          ensures x == y
        {
          assert x in a && y in a;
        }
      }
      SortedUnique(a[1..], b[1..]);
      assert a == [a[0]] + a[1..] && b == [b[0]] + b[1..];
    }
  }

  /** When the expected operations have unambiguous keys, two lists sort to
      the same list exactly when they hold the same operations: the order in
      which a webhook emits its patches does not matter. */
  lemma SortedEqualIffPermutation(a: seq<PatchOp>, b: seq<PatchOp>)
    requires KeysUnambiguous(a)
    ensures SortPatches(a) == SortPatches(b) <==> multiset(a) == multiset(b)
  {
    SortPatchesPermutes(a);
    SortPatchesPermutes(b);
    if multiset(a) == multiset(b) {
      SortPatchesSorted(a);
      SortPatchesSorted(b);
      forall x, y | x in SortPatches(a) && y in SortPatches(a) && Key(x) == Key(y)
        ensures x == y
      {
        assert x in multiset(a) && y in multiset(a);
      }
      SortedUnique(SortPatches(a), SortPatches(b));
    }
  }

  /** Without unambiguous keys the order does matter: two operations on one
      path with different values, listed in the two orders, hold the same
      operations yet sort to different lists. */
  lemma AmbiguousKeysKeepOrder()
    ensures var p := PatchOp("add", "/a", "1");
            var q := PatchOp("add", "/a", "2");
            multiset([p, q]) == multiset([q, p]) && SortPatches([p, q]) != SortPatches([q, p])
  {
    var p := PatchOp("add", "/a", "1");
    var q := PatchOp("add", "/a", "2");
    StrLessIrreflexive("/a");
    assert [p, q][..1] == [p] && [q, p][..1] == [q];
    assert [p][..0] == [] && [q][..0] == [];
    assert SortPatches([p]) == [p] && SortPatches([q]) == [q];
    assert !PatchLess(q, p) && !PatchLess(p, q);
    assert Insert(q, [p]) == [p] + Insert(q, []);
    assert Insert(p, [q]) == [q] + Insert(p, []);
    assert SortPatches([p, q]) == [p, q];
    assert SortPatches([q, p]) == [q, p];
  }

  // ---------------------------------------------------------------------------
  // The sort, in place

  /** In a sorted list, an operation not less than `s[j - 1]` is not less
      than anything before it either. */
  lemma NotBelowPrefix(x: PatchOp, s: seq<PatchOp>, j: nat)
    requires Sorted(s) && j <= |s|
    requires j == 0 || !PatchLess(x, s[j - 1])
    ensures forall k :: 0 <= k < j ==> !PatchLess(x, s[k])
  {
    forall k | 0 <= k < j
      ensures !PatchLess(x, s[k])
    {
      LessThenNotGreater(x, s[k], s[j - 1]);
    }
  }

  /** `x` goes at position `j` of `s` when everything from `j` on is above
      it and nothing before `j` is. */
  lemma {:induction false} InsertAt(x: PatchOp, s: seq<PatchOp>, j: nat)
    requires j <= |s|
    requires forall k :: 0 <= k < j ==> !PatchLess(x, s[k])
    requires forall k :: j <= k < |s| ==> PatchLess(x, s[k])
    ensures Insert(x, s) == s[..j] + [x] + s[j..]
  {
    if j > 0 {
      InsertAt(x, s[1..], j - 1);
      assert s[..j] == [s[0]] + s[1..][..j - 1];
      assert s[j..] == s[1..][j - 1..];
    } else {
      assert s[..0] == [];
    }
  }

  /** A list that holds `s` with `x` put in at position `j`. */
  lemma Spliced(r: seq<PatchOp>, s: seq<PatchOp>, x: PatchOp, j: nat)
    requires j <= |s| && |r| == |s| + 1
    requires forall m :: 0 <= m < j ==> r[m] == s[m]
    requires r[j] == x
    requires forall m :: j < m < |r| ==> r[m] == s[m - 1]
    ensures r == s[..j] + [x] + s[j..]
  {
  }

  /** Where `x` goes among the first `i` operations of `a`: the slot after
      the last one it is not less than. */
  method Slot(a: array<PatchOp>, i: nat, x: PatchOp) returns (j: nat)
    requires i <= a.Length
    ensures j <= i
    ensures forall k :: j <= k < i ==> PatchLess(x, a[k])
    ensures j == 0 || !PatchLess(x, a[j - 1])
  {
    j := i;
    while j > 0 && PatchLess(x, a[j - 1])
      invariant j <= i
      invariant forall k :: j <= k < i ==> PatchLess(x, a[k])
    {
      j := j - 1;
    }
  }

  /** Moves `a[j..i]` one place up, over `a[i]`. */
  method ShiftUp(a: array<PatchOp>, j: nat, i: nat)
    requires j <= i < a.Length
    modifies a
    ensures forall m :: 0 <= m < j ==> a[m] == old(a[m])
    ensures forall m :: j < m <= i ==> a[m] == old(a[m - 1])
    ensures forall m :: i < m < a.Length ==> a[m] == old(a[m])
  {
    var k := i;
    while k > j
      invariant j <= k <= i
      invariant forall m :: 0 <= m <= k ==> a[m] == old(a[m])
      invariant forall m :: k < m <= i ==> a[m] == old(a[m - 1])
      invariant forall m :: i < m < a.Length ==> a[m] == old(a[m])
    {
      a[k] := a[k - 1];
      k := k - 1;
    }
  }

  /** One step of the sort: insert `a[i]` into the sorted prefix before it. */
  method InsertInPlace(a: array<PatchOp>, i: nat)
    requires i < a.Length && Sorted(a[..i])
    modifies a
    ensures a[..i + 1] == Insert(old(a[i]), old(a[..i]))
    ensures a[i + 1..] == old(a[i + 1..])
  {
    var x := a[i];
    ghost var s := a[..i];
    var j := Slot(a, i, x);
    NotBelowPrefix(x, s, j);
    InsertAt(x, s, j);
    ShiftUp(a, j, i);
    a[j] := x;
    Spliced(a[..i + 1], s, x, j);
  }

  /** `sort.Slice` with the (operation, path) less function, in place. */
  method SortInPlace(a: array<PatchOp>)
    modifies a
    ensures a[..] == SortPatches(old(a[..]))
  {
    ghost var orig := a[..];
    var i := 0;
    while i < a.Length
      invariant 0 <= i <= a.Length
      invariant a[..i] == SortPatches(orig[..i])
      invariant a[i..] == orig[i..]
    {
      SortPatchesSorted(orig[..i]);
      InsertInPlace(a, i);
      assert orig[..i + 1][..i] == orig[..i];
      i := i + 1;
    }
    assert orig[..a.Length] == orig;
  }

  // ---------------------------------------------------------------------------
  // The check

  /** `ExpectPatches`: `decoded` is the outcome of unmarshalling the response's
      patch bytes (`None` when they do not parse). On a parse failure the check
      fails and the caller's expected list is left as it was; otherwise the
      expected list is sorted in place, the decoded list is sorted, and the
      check passes exactly when the sorted lists are equal. A nil list and an
      empty one are the same empty sequence. */
  method ExpectPatches(decoded: Option<seq<PatchOp>>, e: array<PatchOp>) returns (r: Report)
    modifies e
    ensures decoded.None? ==> r == Fail(UnmarshalFailed) && e[..] == old(e[..])
    ensures decoded.Some? ==> e[..] == SortPatches(old(e[..]))
    ensures decoded.Some? ==> (r.Pass? <==> SortPatches(old(e[..])) == SortPatches(decoded.value))
    ensures r.Fail? && decoded.Some? ==> r.failure == PatchesDiffer
  {
    if decoded.None? {
      return Fail(UnmarshalFailed);
    }
    var patches := decoded.value;
    var got := new PatchOp[|patches|](k requires 0 <= k < |patches| => patches[k]);
    assert got[..] == patches;
    SortInPlace(e);
    SortInPlace(got);
    r := if e[..] == got[..] then Pass else Fail(PatchesDiffer);
  }
}
