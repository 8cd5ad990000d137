# Knative common package core, modelled in Dafny

This project models five parts of the Knative common package (`knative.dev/pkg`, here in the
`Yangfisher1/knative-common-pkg` fork):

- **The status-condition engine** that every Knative resource uses to report health. A
  *condition set* names a top-level ("happy") condition type, Ready for long-running
  resources and Succeeded for run-to-completion ones, and the dependent types it aggregates.
  A *condition manager* binds a set to one status object and updates that status's
  condition list in place. It can initialize the conditions, mark a condition True or
  False, look one up, and tell whether the resource is happy. A status can also be
  *narrowed* (`ConvertTo`) into the older shape, which keeps only the top-level condition,
  the observed generation and the annotations.
- **The v1 `KResource` skeleton**, which hands out a pointer to its status and reports the
  condition set that status was built with.
- **The conversion of the v1beta1 `Addressable` duck type** to and from v1. The conversion
  writes through a pointer to its target and rejects any shape other than v1.
- **Two pure helpers of the Mako benchmarking sidecar.** `EscapeTag` rewrites the
  characters Mako refuses in a tag. `tokenPath` joins the secret-token folder and a token
  name as a cleaned file path.
- **The admission-webhook test helpers.** `CreateResource` builds a canned resource.
  `ExpectAllowed`, `ExpectFailsWith` and `ExpectWarnsWith` check an admission response.
  `ExpectPatches` sorts the expected and the decoded JSON Patch lists (RFC 6902) in place
  by (operation, path), then compares them.

The engine's own implementation files (the condition-set code in `apis`, the duck types'
`Status`, `Addressable` and `KResource` definitions) are not part of this model. The
modelled behaviour is the one their tests in the repository pin down
(`status_types_test.go`, `kresource_type_test.go`, `addressable_types_test.go`), completed
with the engine's documented semantics where the tests leave a case open, except where a
line under "## Left out" names a difference. The Mako and
webhook helpers are modelled from their own source.

## Layout

| file | module | contents |
|---|---|---|
| wrappers.dfy | `Wrappers` | `Option` and `Result` |
| gostrings.dfy | `GoStrings` | Go's `<` on strings, which both sorts of the model use |
| conditions.dfy | `Conditions` | conditions, condition sets, and the value-level meaning of every manager operation, with the properties proved about it |
| status.dfy | `DuckStatus` | the `Status` class (condition list, observed generation, annotations), its lookup and its narrowing `ConvertTo` |
| managers.dfy | `Managers` | the `ConditionManager` class: each mutating method is proved to leave the status's list equal to a `Conditions` function of the old list |
| kresource.dfy | `DuckV1` | `KResource` and the condition set it reports |
| scenarios.dfy | `DuckV1Beta1Scenarios` | the lookup and condition-set scenarios of the v1beta1 status, replayed on the classes with every expected outcome asserted |
| addressable.dfy | `Addressables` | v1beta1 ↔ v1 `Addressable` conversion through pointers |
| mako.dfy | `Mako` | `EscapeTag`, `tokenPath` and rooted path cleaning |
| webhook.dfy | `WebhookTesting` | `strings.Contains`, `CreateResource`, the admission-response checks |
| patches.dfy | `PatchComparison` | the (operation, path) order, insertion sort as a function and in place on an array, `ExpectPatches` |

The two scenario methods `DuckV1Beta1Scenarios.StatusGetConditionScenario` and
`DuckV1Beta1Scenarios.ConditionSetScenario` have no contract of their own. Their bodies
assert each outcome the scenarios expect, such as the Unknown, False and True statuses in
turn and the single narrowed condition. The condition-set scenario runs its three updates
through `InitializeStep`, `MarkFalseStep` and `MarkTrueStep`, whose contracts state the
statuses each update leaves.

## Model

| member | source | states |
|---|---|---|
| GoStrings.StrLessIrreflexive | webhook/testing/testing.go:109-111 | no string is less than itself |
| GoStrings.StrLessTransitive | webhook/testing/testing.go:109-111 | string order is transitive |
| GoStrings.StrLessTotal | webhook/testing/testing.go:109-111 | of two different strings, one is less than the other |
| GoStrings.StrLessAsymmetric | webhook/testing/testing.go:109-111 | of two strings, at most one is less than the other |
| Conditions.Find | apis/duck/v1beta1/status_types_test.go:43-55 | a found condition is stored in the list and has the requested type; nothing is found exactly when no stored condition has that type |
| Conditions.FindFirst | apis/duck/v1beta1/status_types_test.go:43-51 | the lookup returns the first stored condition of its type |
| Conditions.FindIndex | apis/duck/v1beta1/status_types_test.go:43-51 | a found condition sits at an index before which no condition has its type |
| Conditions.FindUnique | apis/duck/v1beta1/status_types_test.go:43-51 | in a list whose types are unique, looking up a stored condition's type returns that very condition (foo and bar are both found) |
| Conditions.FindAppend | apis/duck/v1beta1/status_types_test.go:43-55 | a lookup in two lists joined finds what the first list holds, and otherwise what the second holds |
| Conditions.Remove | apis/duck/v1beta1/status_types_test.go:98-99 | what remains after dropping type `t` comes from the list and has no condition of type `t`; a lookup of any other type finds what it found before; uniqueness of types is kept |
| Conditions.InsertByType | apis/duck/v1beta1/status_types_test.go:98-99 | inserting into the type order adds exactly that condition: one more element, the same multiset plus the new one |
| Conditions.InsertByTypeSorted | apis/duck/v1beta1/status_types_test.go:98-99 | inserting into a list sorted by type keeps it sorted |
| Conditions.InsertByTypeFind | apis/duck/v1beta1/status_types_test.go:98-99 | inserting into a sorted list changes lookups exactly as appending does: the new condition comes after every condition of its own type |
| Conditions.InsertByTypeUnique | apis/duck/v1beta1/status_types_test.go:98-99 | inserting a condition of a type not yet stored keeps the types unique |
| Conditions.SortByType | apis/duck/v1beta1/status_types_test.go:98-99 | the re-sort after a set: the result is sorted by type, holds the same conditions as often as before, every lookup finds what it found before, and unique types stay unique |
| Conditions.Upsert | apis/duck/v1beta1/status_types_test.go:98-99 | after setting condition `c`, a lookup of c's type yields `c`, every other lookup is as before, the list is sorted by type, and uniqueness of types is kept |
| Conditions.Dedup | apis/duck/v1beta1/status_types_test.go:59 | the kept dependents are exactly the given ones other than the top-level type, each listed once |
| Conditions.DedupDistinct | apis/duck/v1beta1/status_types_test.go:59 | dependents that are already distinct and exclude the top-level type are kept as given, so the living set over "Foo" has exactly the dependent "Foo" |
| Conditions.NewConditionSet | apis/duck/v1beta1/status_types_test.go:59 | the set has the requested top-level type, the top-level type is not a dependent, no dependent is repeated, and the dependents are the given types other than the top-level one |
| Conditions.NewLivingConditionSet | apis/duck/v1/kresource_type_test.go:31-34 | the living set's top-level type is Ready, with the set properties above |
| Conditions.NewBatchConditionSet | apis/duck/v1/kresource_type_test.go:36-39 | the batch set's top-level type is Succeeded, with the set properties above |
| Conditions.InitTerminal | apis/duck/v1beta1/status_types_test.go:72 | a missing condition of type `t` is added with the given status and empty reason and message; a present one, and every other lookup, is kept; uniqueness and type order are kept |
| Conditions.InitStatus | apis/duck/v1beta1/status_types_test.go:72-80 | missing dependents are added True or Unknown, never False |
| Conditions.InitStatusTrue | apis/duck/v1beta1/status_types_test.go:72-80 | missing dependents are added True exactly when the first stored condition of the top-level type is True, and Unknown otherwise |
| Conditions.InitDependents | apis/duck/v1beta1/status_types_test.go:72-80 | the dependent loop of `InitializeConditions`: each dependent, in declaration order, is added with the given status when missing; its lookups are stated by `Conditions.InitDependentsFind` and its invariants by `Conditions.InitDependentsKeeps` |
| Conditions.InitDependentsSnoc | apis/duck/v1beta1/status_types_test.go:72 | initializing one more dependent is the single-type initialization applied to what the dependents before it left |
| Conditions.InitDependentsKeeps | apis/duck/v1beta1/status_types_test.go:72 | adding the missing dependents keeps the types unique and the list sorted by type |
| Conditions.Initialized | apis/duck/v1beta1/status_types_test.go:72 | initialization keeps the types unique and the list sorted by type |
| Conditions.InitDependentsFind | apis/duck/v1beta1/status_types_test.go:72-80 | after the dependent loop, a present condition is unchanged, a missing dependent has the given status with empty reason and message, and any other type stays absent |
| Conditions.InitializedFind | apis/duck/v1beta1/status_types_test.go:72-80 | after `InitializeConditions`, a present condition is unchanged, a missing top-level condition is Unknown, a missing dependent is Unknown (True when the top-level condition already was True), and nothing else is added |
| Conditions.InitializeEmpty | apis/duck/v1beta1/status_types_test.go:72-80 | on an empty status, the top-level condition and every dependent are created Unknown |
| Conditions.InitializedHasAll | apis/duck/v1/kresource_type_test.go:45-53 | after initialization the top-level condition exists, even for a set without dependents, and so does every dependent |
| Conditions.InitDependentsPresent | apis/duck/v1beta1/status_types_test.go:72 | when every dependent is present, the dependent loop changes nothing |
| Conditions.InitializeIdempotent | apis/duck/v1beta1/status_types_test.go:72 | initializing twice gives the same list as initializing once, for any prior list |
| Conditions.FirstDependentWith | apis/duck/v1beta1/status_types_test.go:102-108 | the reported dependent has the requested status, is a dependent, and is what a lookup of its type finds; none is reported exactly when no dependent has that status |
| Conditions.FirstDependentWithIsFirst | apis/duck/v1beta1/status_types_test.go:102-108 | among dependents with the requested status, the first in declaration order is reported |
| Conditions.FirstDependentWithFrame | apis/duck/v1beta1/status_types_test.go:102-108 | the reported dependent depends only on the dependents' conditions |
| Conditions.Aggregate | apis/duck/v1beta1/status_types_test.go:123-133 | the recomputed top-level condition has the top-level type; it is True exactly when every dependent is present and True, and then has no reason or message; it is False exactly when some dependent is False |
| Conditions.AggregateFrame | apis/duck/v1beta1/status_types_test.go:123-133 | the recomputed top-level condition depends only on the dependents' conditions |
| Conditions.AggregateFirstFailure | apis/duck/v1beta1/status_types_test.go:98-108 | False outranks Unknown and True, and the first False dependent in declaration order gives its reason and message |
| Conditions.AggregateFirstUnknown | apis/duck/v1beta1/status_types_test.go:72-80 | with no False dependent, the first Unknown dependent gives the top-level condition Unknown with its reason and message |
| Conditions.MarkedTrue | apis/duck/v1beta1/status_types_test.go:123-133 | `t` becomes True with empty reason and message; unless `t` is the top-level type, the top-level condition is then recomputed from the dependents, so the resource is happy exactly when every other dependent was already True; every other condition is unchanged; uniqueness is kept and the list is sorted by type |
| Conditions.MarkedOthersTrue | apis/duck/v1beta1/status_types_test.go:123-133 | after setting `t` True, every dependent is present and True exactly when every dependent other than `t` already was |
| Conditions.RecomputedHappy | apis/duck/v1beta1/status_types_test.go:123-133 | after a dependent other than the top-level type is set True and the top-level condition recomputed, the resource is happy exactly when every other dependent was already True |
| Conditions.RecomputedAgrees | apis/duck/v1beta1/status_types_test.go:123-133 | when the top-level type is not a dependent, storing the recomputed top-level condition is stable: what is stored equals the aggregate recomputed from the new list |
| Conditions.MarkedFalse | apis/duck/v1beta1/status_types_test.go:98-108 | `t` becomes False with the given reason and message; when `t` is a dependent, the top-level condition becomes False with the same reason and message; every other condition is unchanged; uniqueness is kept and the list is sorted by type |
| Conditions.MarkFalseDependentIsUnhappy | apis/duck/v1beta1/status_types_test.go:98-114 | a dependent marked False leaves the resource unhappy, and the dependent is False |
| Conditions.FailureOutranksTrue | apis/duck/v1beta1/status_types_test.go:98-133 | once a dependent is marked False, marking another dependent True leaves the top-level condition False with the failure's reason and message, unless a dependent declared earlier is also False |
| Conditions.MarkTrueOnlyDependent | apis/duck/v1beta1/status_types_test.go:123-139 | with one dependent, marking it True makes it and the top-level condition True, whatever they were before, so the resource is happy |
| Conditions.MarkTrueMonotone | apis/duck/v1beta1/status_types_test.go:123-133 | marking any condition True never turns a True condition other than the top-level one into anything else |
| Conditions.MarkAllTrueKeepsTrue | apis/duck/v1beta1/status_types_test.go:123-133 | after marking a sequence of types True, each of them other than the top-level type is still True |
| Conditions.OthersMarkedTrue | apis/duck/v1beta1/status_types_test.go:123-133 | once every dependent but the last has been marked True, all those others are True |
| Conditions.AllDependentsTrueIsHappy | apis/duck/v1beta1/status_types_test.go:123-139 | marking every dependent True, in any order and among any other marks, makes every dependent True and the resource happy |
| DuckStatus.FindTopLevel | apis/duck/v1beta1/status_types_test.go:82-87 | the narrowing picks a stored Ready or Succeeded condition, and one exists unless no stored condition has either type |
| DuckStatus.FindTopLevelIsFind | apis/duck/v1beta1/status_types_test.go:82-87 | when the list holds no condition of the other top-level type, the narrowing picks exactly the condition a lookup of the set's top-level type returns |
| DuckStatus.FindTopLevelFirst | apis/duck/v1beta1/status_types_test.go:83 | the narrowing picks the first Ready or Succeeded condition of the list |
| DuckStatus.Narrowed | apis/duck/v1beta1/status_types_test.go:82-96 | the narrowed status has the source's generation; the source's annotations unless they are nil, in which case the sink's stay; and the source's first top-level condition alone, or the sink's conditions when the source has none |
| DuckStatus.NarrowToEmpty | apis/duck/v1beta1/status_types_test.go:82-96 | narrowing into a fresh status yields exactly one condition, a top-level one taken from the source, and copies the generation and the annotations, nil staying nil |
| DuckStatus.NarrowDropsDependents | apis/duck/v1beta1/status_types_test.go:82-89 | a status narrowed into a fresh one holds no dependent condition |
| DuckStatus.NarrowKeepsTopLevel | apis/duck/v1beta1/status_types_test.go:84-86 | when the source stores no condition of the other top-level type, the narrowed status has the source's top-level condition, so it is happy exactly when the source is |
| DuckStatus.NarrowSortedKeepsReady | apis/duck/v1beta1/status_types_test.go:135-141 | in a list sorted by type Ready comes before Succeeded, so when Ready is stored the narrowed status holds exactly that condition and, for a living set, is happy exactly when the source is |
| DuckV1Beta1Scenarios.InitializeStep | apis/duck/v1beta1/status_types_test.go:72-80 | initializing an empty status of a living set with one dependent gives Ready and that dependent, both Unknown, sorted by type, with generation and annotations kept |
| DuckV1Beta1Scenarios.MarkFalseStep | apis/duck/v1beta1/status_types_test.go:98-108 | marking the only dependent False makes it and Ready False, keeping the list sorted by type |
| DuckV1Beta1Scenarios.MarkTrueStep | apis/duck/v1beta1/status_types_test.go:123-133 | marking the only dependent True makes it and Ready True, keeping the list sorted by type |
| DuckStatus.NarrowAfterMarkTrueOnlyDependent | apis/duck/v1beta1/status_types_test.go:123-141 | after marking the only dependent of a living set True, the narrowed status has one condition and is happy, whatever the list held before |
| DuckStatus.Status.Empty | apis/duck/v1beta1/status_types_test.go:82 | `&Status{}` has no conditions, generation 0 and nil annotations |
| DuckStatus.Status.constructor | apis/duck/v1beta1/status_types_test.go:63-69 | a status literal holds the given conditions, generation and annotations |
| DuckStatus.Status.GetCondition | apis/duck/v1beta1/status_types_test.go:43-55 | the loop returns the first stored condition of the type, or nothing exactly when no stored condition has it; with unique types it is the stored condition itself |
| DuckStatus.Status.SetConditions | apis/duck/v1beta1/status_types_test.go:98-99 | the condition list is replaced and the other fields are kept |
| DuckStatus.Status.ConvertTo | apis/duck/v1beta1/status_types_test.go:82-96 | the sink's new fields are the narrowing of the source's and the sink's old fields: the generation is copied, annotations are copied unless the source's are nil, and the conditions become the source's top-level condition alone; the source is untouched |
| Managers.ConditionManager.constructor | apis/duck/v1beta1/status_types_test.go:70 | `Manage` binds the set to the given status object, so managers over one status share its updates |
| Managers.ConditionManager.GetCondition | apis/duck/v1beta1/status_types_test.go:74-80 | the manager returns the status's lookup; nothing exactly when no condition of the type is stored |
| Managers.ConditionManager.GetTopLevelCondition | apis/duck/v1/kresource_type_test.go:48-53 | the manager returns the condition of the set's top-level type, which is stored and has that type |
| Managers.ConditionManager.IsHappy | apis/duck/v1beta1/status_types_test.go:84-86 | happy exactly when the top-level condition exists and is True; when unhappy and types are unique, no stored top-level condition is True |
| Managers.ConditionManager.SetCondition | apis/duck/v1beta1/status_types_test.go:98-99 | the filter loop and the re-sort leave the status's list equal to `Upsert` of the old one; generation and annotations are untouched |
| Managers.ConditionManager.InitializeTerminalCondition | apis/duck/v1beta1/status_types_test.go:72 | a missing condition is added with the given status, a present one is kept |
| Managers.ConditionManager.InitializeDependents | apis/duck/v1beta1/status_types_test.go:72 | the dependent loop leaves the list equal to `InitDependents` of the old one |
| Managers.ConditionManager.InitializeConditions | apis/duck/v1beta1/status_types_test.go:72-80 | the list becomes `Initialized` of the old one; generation and annotations are untouched; unique types stay unique |
| Managers.ConditionManager.FindDependentWith | apis/duck/v1beta1/status_types_test.go:102-108 | the loop returns the first dependent, in declaration order, stored with the requested status |
| Managers.ConditionManager.RecomputedTopLevel | apis/duck/v1beta1/status_types_test.go:123-133 | the recomputed top-level condition is `Aggregate` of the status's list |
| Managers.ConditionManager.MarkTrue | apis/duck/v1beta1/status_types_test.go:123-133 | the list becomes `MarkedTrue` of the old one; generation and annotations are untouched; unique types stay unique |
| Managers.ConditionManager.MarkFalse | apis/duck/v1beta1/status_types_test.go:98-108 | the list becomes `MarkedFalse` of the old one; generation and annotations are untouched; unique types stay unique |
| DuckV1.ReportedConditionSet | apis/duck/v1/kresource_type_test.go:48 | the reported set is the batch preset exactly when a Succeeded condition is stored and the living preset otherwise; it has no dependents |
| DuckV1.ReportedSetMatchesPreset | apis/duck/v1/kresource_type_test.go:31-53 | a fresh status initialized with the living or the batch preset reports that same preset, and its top-level condition exists |
| DuckV1.KResource.constructor | apis/duck/v1/kresource_type_test.go:45 | `KResource{}` embeds a new, empty status |
| DuckV1.KResource.GetStatus | apis/duck/v1/kresource_type_test.go:46-48 | every call hands out the same status object |
| DuckV1.KResource.GetConditionSet | apis/duck/v1/kresource_type_test.go:48 | the reported set is `ReportedConditionSet` of the stored conditions |
| DuckV1.TopLevelAfterInitialize | apis/duck/v1/kresource_type_test.go:43-55 | after initializing through one manager, a second manager over the reported set finds the preset's top-level condition, Unknown |
| DuckV1Beta1Scenarios.NarrowToFresh | apis/duck/v1beta1/status_types_test.go:82-96 | narrowing a sorted living status into a fresh one gives one condition, the same generation and annotations, and the same happiness as the source |
| Addressables.ToV1 | apis/duck/v1beta1/addressable_types_test.go:75 | the URL is carried up to v1 unchanged, and absence stays absence |
| Addressables.FromV1 | apis/duck/v1beta1/addressable_types_test.go:83 | the URL is carried down from v1 unchanged, and absence stays absence |
| Addressables.RoundTripFromV1Beta1 | apis/duck/v1beta1/addressable_types_test.go:72-96 | up then down reproduces the v1beta1 value, with or without a URL |
| Addressables.RoundTripFromV1 | apis/duck/v1beta1/addressable_types_test.go:72-96 | down then up reproduces the v1 value |
| Addressables.AddressableV1.constructor | apis/duck/v1beta1/addressable_types_test.go:44-50 | a v1 object holds the given URL |
| Addressables.Addressable.constructor | apis/duck/v1beta1/addressable_types_test.go:38-52 | a v1beta1 object holds the given URL |
| Addressables.Addressable.ConvertTo | apis/duck/v1beta1/addressable_types_test.go:75-81 | into a v1 target: no error, and the target holds this value; into a v1beta1 target: an error, and the target is untouched |
| Addressables.Addressable.ConvertFrom | apis/duck/v1beta1/addressable_types_test.go:82-91 | from a v1 source: no error, and this object holds the source's value; from a v1beta1 source: an error, and this object is untouched |
| Addressables.RoundTripThroughV1 | apis/duck/v1beta1/addressable_types_test.go:36-53 | the v1 cases: both conversions succeed and the URL, or its absence, comes back |
| Addressables.SameVersionRejected | apis/duck/v1beta1/addressable_types_test.go:54-70 | the v1beta1 cases: both conversions fail and the receiving object stays empty |
| Mako.Lookup | test/mako/sidecar.go:80 | a character no pair names is kept; otherwise the replacement comes from a pair naming it |
| Mako.EscapeChar | test/mako/sidecar.go:80 | the first matching pair of the escaper table decides: plus to dash, tab and space to underscore, anything else kept |
| Mako.EscapeTag | test/mako/sidecar.go:80-85 | the escaped tag has the input's length, and each character is the escape of the input's character at that position |
| Mako.EscapeTagPointwise | test/mako/sidecar.go:80 | each plus becomes a dash, each tab or space an underscore, every other character stays |
| Mako.EscapeTagAccepted | test/mako/sidecar.go:80-85 | an escaped tag holds no plus, tab or space |
| Mako.EscapeTagKeepsAccepted | test/mako/sidecar.go:80-85 | a tag with no plus, tab or space is left as it is |
| Mako.EscapeTagIdempotent | test/mako/sidecar.go:80-85 | escaping an escaped tag changes nothing |
| Mako.IndexOf | test/mako/sidecar.go:186-188 | the position found holds the character, and no earlier position does |
| Mako.Split | test/mako/sidecar.go:186-188 | a path splits into at least one piece, none holding a slash |
| Mako.Resolve | test/mako/sidecar.go:186-188 | resolving slash-free elements onto a stack of plain elements leaves only plain, slash-free elements |
| Mako.CleanRooted | test/mako/sidecar.go:186-188 | a cleaned rooted path is non-empty and starts with a slash |
| Mako.TokenPath | test/mako/sidecar.go:186-188 | the joined token path is a clean rooted path: a slash, then only plain elements, whatever the token holds |
| Mako.IndexOfAfter | test/mako/sidecar.go:186-188 | the first slash after a slash-free piece is the one right after it |
| Mako.SplitCons | test/mako/sidecar.go:186-188 | splitting a slash-free piece, a slash and a rest gives the piece followed by the split rest |
| Mako.ResolvePlain | test/mako/sidecar.go:186-188 | plain elements are kept by resolution, in order |
| Mako.SplitJoin | test/mako/sidecar.go:186-188 | splitting undoes joining slash-free elements with slashes |
| Mako.JoinSplit | test/mako/sidecar.go:186-188 | joining the pieces of a split string with slashes gives the string back |
| Mako.CleanIsFixed | test/mako/sidecar.go:186-188 | a rooted path of plain slash-free elements is already clean |
| Mako.CleanKeepsClean | test/mako/sidecar.go:186-188 | cleaning leaves a clean path as it is |
| Mako.CleanRootedIsClean | test/mako/sidecar.go:186-188 | cleaning any rooted path yields a clean path |
| Mako.CleanIdempotent | test/mako/sidecar.go:186-188 | cleaning twice is cleaning once |
| Mako.TokenPathOfFileName | test/mako/sidecar.go:186-188 | a token that is a plain file name lands directly in the token folder: "/var/secret/" followed by the token |
| Mako.GithubTokenPath | test/mako/sidecar.go:57-58 | the GitHub token's path is "/var/secret/github-token" |
| Mako.EmptyTokenPath | test/mako/sidecar.go:57 | an empty token names the folder "/var/secret" itself |
| WebhookTesting.Contains | webhook/testing/testing.go:70 | the substring test holds exactly when the substring occurs at some offset |
| WebhookTesting.ContainsEmpty | webhook/testing/testing.go:81 | every string contains the empty string |
| WebhookTesting.ContainsInfix | webhook/testing/testing.go:70 | a string contains whatever sits between one of its prefixes and the matching suffix |
| WebhookTesting.ContainsInEmpty | webhook/testing/testing.go:81 | the empty string contains the empty string and nothing else |
| WebhookTesting.CreateResource | webhook/testing/testing.go:38-51 | kind "Resource", API version "v1", the given name, the system namespace, and "magic value" in the validated field |
| WebhookTesting.CreateResourceByName | webhook/testing/testing.go:38-51 | two canned resources in one namespace are equal exactly when their names are |
| WebhookTesting.ExpectAllowed | webhook/testing/testing.go:55-60 | passes exactly when the response allows the request; otherwise the failure is a denial |
| WebhookTesting.ExpectFailsWith | webhook/testing/testing.go:64-73 | passes exactly when the response denies and its message contains the substring; an allowed response fails without its message being read; a denial without a status result is the nil dereference; a denial whose message lacks the substring reports both |
| WebhookTesting.AllowedAndFailsExclusive | webhook/testing/testing.go:55-73 | no response passes both the allowed check and the failure check |
| WebhookTesting.DenialPassesForInfix | webhook/testing/testing.go:64-73 | a denial passes the failure check for any piece of its message and for the empty string |
| WebhookTesting.ExpectWarnsWith | webhook/testing/testing.go:77-88 | passes exactly when at least one warning contains the substring |
| WebhookTesting.NoWarningsNeverWarn | webhook/testing/testing.go:79-87 | a response without warnings fails the warning check |
| WebhookTesting.WarnsWithMonotone | webhook/testing/testing.go:79-84 | adding warnings on either side never turns a passing warning check into a failing one |
| WebhookTesting.AnyWarningHasEmpty | webhook/testing/testing.go:79-84 | with at least one warning, the empty substring is found |
| PatchComparison.PatchLess | webhook/testing/testing.go:106-112 | an operation is less than another only when their (operation, path) keys differ |
| PatchComparison.PatchLessTotal | webhook/testing/testing.go:106-112 | two operations are ordered one way or the other exactly when their (operation, path) keys differ |
| PatchComparison.PatchLessTransitive | webhook/testing/testing.go:106-112 | the less function is transitive |
| PatchComparison.LessThenNotGreater | webhook/testing/testing.go:106-112 | the less function is a strict weak order: below `y`, and `y` not above `z`, means below `z` |
| PatchComparison.Insert | webhook/testing/testing.go:106-119 | inserting into a list makes it one longer |
| PatchComparison.SortPatches | webhook/testing/testing.go:106-119 | sorting keeps the length |
| PatchComparison.InsertPermutes | webhook/testing/testing.go:106-119 | inserting adds exactly that operation |
| PatchComparison.InsertKeepsSorted | webhook/testing/testing.go:106-119 | inserting into a sorted list keeps it sorted |
| PatchComparison.SortPatchesSorted | webhook/testing/testing.go:106-119 | the sorted list is ordered by operation, then by path |
| PatchComparison.SortPatchesPermutes | webhook/testing/testing.go:106-119 | the sorted list holds the same operations with the same multiplicities |
| PatchComparison.SortedHeadsEqual | webhook/testing/testing.go:103-125 | sorted lists with the same operations and no two operations sharing a key start alike |
| PatchComparison.SortedUnique | webhook/testing/testing.go:103-125 | sorted lists with the same operations and no two operations sharing a key are equal |
| PatchComparison.SortedEqualIffPermutation | webhook/testing/testing.go:103-125 | when no two expected operations share a key, the two lists sort alike exactly when they hold the same operations, so the order of the webhook's patches does not matter |
| PatchComparison.AmbiguousKeysKeepOrder | webhook/testing/testing.go:103-105 | two different operations on one path, listed in the two orders, hold the same operations yet sort to different lists: the sort can change the outcome |
| PatchComparison.NotBelowPrefix | webhook/testing/testing.go:106-112 | in a sorted list, an operation not less than the one before a slot is not less than anything before that slot |
| PatchComparison.InsertAt | webhook/testing/testing.go:106-112 | putting an operation at the slot where everything before is not above it and everything after is equals the stable insertion |
| PatchComparison.Slot | webhook/testing/testing.go:106-112 | scanning back from position `i` stops at the slot after the last operation the new one is not less than |
| PatchComparison.ShiftUp | webhook/testing/testing.go:106-112 | the operations of a range move one place up, over the next one, and the rest of the array is unchanged |
| PatchComparison.InsertInPlace | webhook/testing/testing.go:106-112 | one step of the in-place sort inserts the next element into the sorted prefix and leaves the rest of the array alone |
| PatchComparison.SortInPlace | webhook/testing/testing.go:106-119 | the array is reordered in place into the sorted list of its old contents |
| PatchComparison.ExpectPatches | webhook/testing/testing.go:93-129 | on an unmarshal error the check fails and leaves the caller's list alone; otherwise the caller's list is sorted in place and the check passes exactly when both sorted lists are equal |

## Left out

- `Conditions.SortByType`: the engine re-sorts the condition list by type with Go's
  `sort.Slice`, which is not stable. The model sorts with a stable insertion sort. On a
  list whose types are unique, which every manager operation keeps, the two give the same
  order.
- `Conditions.Upsert`: the engine returns early, leaving the list as it was, when the new
  condition equals the stored one apart from its transition time. The model rebuilds and
  re-sorts the list in that case too. The outcome differs for a list that was not sorted
  by type with unique types: `[Foo/True, Foo/False]` is sorted by type, and setting
  Foo/True keeps both conditions in the engine but drops the second one in the model.
- Condition severity and `LastTransitionTime` are not modelled. Setting a condition that
  differs only in its transition time is therefore not recognised as a no-op.
- `Conditions.MarkedFalse`: the engine's `MarkFalse` takes a message format and arguments
  and stores the formatted message. The model takes the message already formatted and
  stores it verbatim, so `fmt.Sprintf` and its verbs are not modelled.
- `Conditions.MarkedFalse`: marking a dependent False writes that failure's reason and
  message into the top-level condition, so the latest failure wins, as in the engine's
  `MarkFalse`. It is sometimes described as keeping the first failing dependent's reason.
  A later recomputation (`Conditions.MarkedTrue` of another dependent) takes the reason of
  the first False dependent in declaration order instead. With dependents A and B, marking
  A False with "ra" and then B False with "rb" leaves the top level False with "rb".
  Marking B True then turns it to False with "ra", because A is the first False dependent
  in declaration order; marking A True instead leaves it False with "rb".
- `Conditions.Aggregate`: the recomputed top-level condition takes its reason and message
  from the first unhappy dependent in declaration order. The modelled tests have a single
  dependent and do not pin down the tie-break between several unhappy dependents.
- `Conditions.MarkedTrue`: marking the top-level type itself True sets it True without
  recomputing it from the dependents. For a set without dependents, marking any other type
  True makes the top-level condition True, as every dependent (there is none) is True.
- `Conditions.MarkedTrue`: the top-level condition is recomputed after marking any type
  other than the top-level one True, not only after marking a dependent. Marking a type
  that is not a dependent can therefore change a top-level condition that was set directly:
  with the one dependent A, the list `[A/Unknown, Ready/True]` is happy, and marking an
  unrelated type X True makes Ready Unknown. Recomputing only for dependents is not
  modelled. `Managers.ConditionManager.MarkTrue` follows `Conditions.MarkedTrue` and
  inherits this.
- `MarkUnknown`, `MarkTrueWithReason`, `ClearCondition` and the `Manage(nil)` accessor are
  not exercised by the modelled tests and are not modelled.
- Severity-aware aggregation, where a failing dependent of warning severity keeps the
  resource happy, is not modelled. A condition is True or not.
- `Conditions.InitializedFind`: initialization adds missing conditions and never
  recomputes an existing top-level condition from the dependents. It is sometimes
  described as recomputing it. The model follows the engine, which does not recompute.
  Missing dependents are added True, not Unknown, when the top-level condition is already
  True (`Conditions.InitStatus`), as the engine does; a description in which every missing
  condition is added Unknown differs from the model there.
- `DuckV1.KResource.GetConditionSet`: `KResource`'s own source is not part of this model.
  The model reports the batch preset when a Succeeded condition is stored and the living
  preset otherwise. This agrees with the modelled test for both presets.
- One `DuckStatus.Status` class stands for both the v1 and the v1beta1 status, which have
  the same fields. `ConvertTo` is modelled as narrowing into any status.
- `DuckStatus.NarrowKeepsTopLevel`: the narrowing takes the first Ready or Succeeded
  condition in list order. For a batch set whose status also stores a Ready condition, the
  narrowed status carries Ready, so the lemma requires that the other top-level type is
  absent.
- `Addressables`: URL fields are carried as plain values, since the conversion copies the
  URL whole. The `context` argument is dropped, and so is the text of the unknown-version
  error.
- `Mako.TokenPath` follows `filepath.Join` on a Unix system. Only the rooted-path case of
  path cleaning is modelled, which is the only case a join with "/var/secret" produces.
- `SetupHelper`, the alerter and the rest of the Mako client are I/O (cluster discovery,
  cloud metadata, the sidecar connection, GitHub and Slack) and are not modelled.
- `WebhookTesting.CreateResource`: the system namespace comes from the environment in the
  source. Here it is a parameter.
- The `*testing.T` handle is replaced by a `Report` verdict. The texts of error and log
  messages are not modelled.
- `PatchComparison.ExpectPatches`: JSON unmarshalling is not modelled. The decoded list, or
  its failure, is a parameter. A nil list and an empty list are both the empty sequence,
  as the comparison treats them; patch values are compared as JSON text.
- `PatchComparison.SortInPlace`: Go's `sort.Slice` is not stable, and the order it leaves
  among operations with equal keys is unspecified. The model uses a stable insertion sort.
  Every result is sorted and a permutation for both sorts. `AmbiguousKeysKeepOrder` shows
  that for equal keys the outcome can depend on this order.
- Generated informer, factory and fake client packages, the defaulting controller wiring,
  the certificate helpers and the metrics reporter are dependency wiring, cryptography or
  I/O and are not part of this model.
