/** The admission-webhook test helpers: a canned resource, and the checks a
    test makes on an admission response (allowed, denied with a message,
    warned). A check's verdict is a `Report` value instead of a call on the
    test handle. */
module WebhookTesting {
  import opened Wrappers

  // ---------------------------------------------------------------------------
  // Substrings

  /** `p` is a prefix of `s`. */
  predicate IsPrefix(p: string, s: string) {
    |p| <= |s| && s[..|p|] == p
  }

  /** `sub` occurs in `s` starting at offset `i`. */
  predicate OccursAt(s: string, sub: string, i: nat) {
    i + |sub| <= |s| && s[i..i + |sub|] == sub
  }

  /** `strings.Contains`: `sub` occurs in `s` at some offset. */
  function Contains(s: string, sub: string): (r: bool)
    ensures r <==> exists i: nat :: OccursAt(s, sub, i)
    decreases |s|
  {
    if IsPrefix(sub, s) then
      assert OccursAt(s, sub, 0);
      true
    else if s == [] then
      assert forall i: nat :: !OccursAt(s, sub, i);
      false
    else
      var r := Contains(s[1..], sub);
      assert r ==> exists i: nat :: OccursAt(s, sub, i) by {
        if r {
          var j: nat :| OccursAt(s[1..], sub, j);
          assert s[1..][j..j + |sub|] == s[j + 1..j + 1 + |sub|];
          assert OccursAt(s, sub, j + 1);
        }
      }
      assert (exists i: nat :: OccursAt(s, sub, i)) ==> r by {
        if exists i: nat :: OccursAt(s, sub, i) {
          var i: nat :| OccursAt(s, sub, i);
          assert i != 0;
          assert s[1..][i - 1..i - 1 + |sub|] == s[i..i + |sub|];
          assert OccursAt(s[1..], sub, i - 1);
        }
      }
      r
  }

  /** Every string contains the empty string. */
  lemma ContainsEmpty(s: string)
    ensures Contains(s, "")
  {
    assert OccursAt(s, "", 0);
  }

  /** A string contains whatever sits between a prefix and a suffix of it. */
  lemma ContainsInfix(a: string, sub: string, b: string)
    ensures Contains(a + sub + b, sub)
  {
    var s := a + sub + b;
    assert s[|a|..|a| + |sub|] == sub;
    assert OccursAt(s, sub, |a|);
  }

  /** Nothing but the empty string occurs in the empty string. */
  lemma ContainsInEmpty(sub: string)
    ensures Contains("", sub) <==> sub == ""
  {
    if sub == "" {
      ContainsEmpty("");
    }
  }

  // ---------------------------------------------------------------------------
  // The canned resource

  /** The test resource: its type meta, object meta and spec field. */
  datatype Resource = Resource(kind: string, apiVersion: string, namespace: string, name: string,
                               fieldWithValidation: string)

  /** `CreateResource(name)`: a v1 `Resource` named `name` in the system
      namespace, whose validated field holds the magic value. The system
      namespace is read from the environment by Go's helper; here it is a
      parameter. */
  function CreateResource(name: string, systemNamespace: string): (r: Resource)
    ensures r.kind == "Resource" && r.apiVersion == "v1"
    ensures r.name == name && r.namespace == systemNamespace
    ensures r.fieldWithValidation == "magic value"
  {
    Resource("Resource", "v1", systemNamespace, name, "magic value")
  }

  /** Two canned resources in one namespace are the same exactly when their
      names are. */
  lemma CreateResourceByName(a: string, b: string, ns: string)
    ensures CreateResource(a, ns) == CreateResource(b, ns) <==> a == b
  {
  }

  // ---------------------------------------------------------------------------
  // Admission responses

  /** The `metav1.Status` a denial carries. */
  datatype ResultStatus = ResultStatus(message: string)

  /** An admission response: whether the request was allowed, the status
      result (a pointer in Go, so possibly absent), and the
      warnings. */
  datatype AdmissionResponse = AdmissionResponse(allowed: bool, result: Option<ResultStatus>, warnings: seq<string>)

  /** Why a check fails. `NilResult` is the nil-pointer dereference Go's helper
      performs when a denied response has no status result. */
  datatype Failure =
    | GotDenied
    | GotAllowed
    | NilResult
    | MessageLacks(want: string, got: string)
    | NoWarningWith(want: string)
    | UnmarshalFailed
    | PatchesDiffer

  /** A check's verdict. */
  datatype Report = Pass | Fail(failure: Failure)

  /** `ExpectAllowed`: the response must allow the request. */
  function ExpectAllowed(resp: AdmissionResponse): (r: Report)
    ensures r.Pass? <==> resp.allowed
    ensures r.Fail? ==> r.failure == GotDenied
  {
    if resp.allowed then Pass else Fail(GotDenied)
  }

  /** The response is a denial whose message contains `sub`. */
  ghost predicate DeniedWith(resp: AdmissionResponse, sub: string) {
    !resp.allowed && resp.result.Some? &&
    exists i: nat :: OccursAt(resp.result.value.message, sub, i)
  }

  /** `ExpectFailsWith`: the response must deny the request, and its message
      must contain `sub`. An allowed response fails without the message being
      looked at. */
  function ExpectFailsWith(resp: AdmissionResponse, sub: string): (r: Report)
    ensures r.Pass? <==> DeniedWith(resp, sub)
    ensures resp.allowed ==> r == Fail(GotAllowed)
    ensures !resp.allowed && resp.result.None? ==> r == Fail(NilResult)
    ensures !resp.allowed && resp.result.Some? && r.Fail? ==>
              r.failure == MessageLacks(sub, resp.result.value.message)
  {
    if resp.allowed then Fail(GotAllowed)
    else if resp.result.None? then Fail(NilResult)
    else if Contains(resp.result.value.message, sub) then Pass
    else Fail(MessageLacks(sub, resp.result.value.message))
  }

  /** No response passes both `ExpectAllowed` and `ExpectFailsWith`. */
  lemma AllowedAndFailsExclusive(resp: AdmissionResponse, sub: string)
    ensures !(ExpectAllowed(resp).Pass? && ExpectFailsWith(resp, sub).Pass?)
  {
  }

  /** A denial passes `ExpectFailsWith` for any piece of its message, and for
      the empty string. */
  lemma DenialPassesForInfix(a: string, sub: string, b: string, warnings: seq<string>)
    ensures ExpectFailsWith(AdmissionResponse(false, Some(ResultStatus(a + sub + b)), warnings), sub) == Pass
    ensures ExpectFailsWith(AdmissionResponse(false, Some(ResultStatus(a + sub + b)), warnings), "") == Pass
  {
    ContainsInfix(a, sub, b);
    ContainsEmpty(a + sub + b);
  }

  /** Some warning contains `sub`. */
  predicate WarnsWith(warnings: seq<string>, sub: string) {
    exists i :: 0 <= i < |warnings| && Contains(warnings[i], sub)
  }

  /** `ExpectWarnsWith`: the response must carry a warning containing `sub`.
      Every warning is examined; one match is enough. */
  method ExpectWarnsWith(resp: AdmissionResponse, sub: string) returns (r: Report)
    ensures r.Pass? <==> WarnsWith(resp.warnings, sub)
    ensures r.Fail? ==> r.failure == NoWarningWith(sub)
  {
    var found := false;
    var i := 0;
    while i < |resp.warnings|
      invariant 0 <= i <= |resp.warnings|
      invariant found <==> exists k :: 0 <= k < i && Contains(resp.warnings[k], sub)
    {
      if Contains(resp.warnings[i], sub) {
        found := true;
      }
      i := i + 1;
    }
    r := if found then Pass else Fail(NoWarningWith(sub));
  }

  /** A response without warnings never passes `ExpectWarnsWith`. */
  lemma NoWarningsNeverWarn(sub: string)
    ensures !WarnsWith([], sub)
  {
  }

  /** Adding warnings never turns a passing warning check into a failing one,
      whichever side they are added on. */
  lemma WarnsWithMonotone(before: seq<string>, ws: seq<string>, after: seq<string>, sub: string)
    requires WarnsWith(ws, sub)
    ensures WarnsWith(before + ws + after, sub)
  {
    var i :| 0 <= i < |ws| && Contains(ws[i], sub);
    assert (before + ws + after)[|before| + i] == ws[i];
  }

  /** With at least one warning, the empty string is always found. */
  lemma AnyWarningHasEmpty(warnings: seq<string>)
    requires warnings != []
    ensures WarnsWith(warnings, "")
  {
    ContainsEmpty(warnings[0]);
  }
}
