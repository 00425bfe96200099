# kubectl-html resource engine, modelled in Dafny

kubectl-html runs `kubectl get … -o yaml` and renders the result as an HTML
report. Its engine lives in `main.go`, and this project models it:

- `parseKubernetesYAML` splits the YAML text into documents and decodes each
  one as a `List` (whose items are flattened) or as a single resource.
- `getResourceStatus` labels each resource `running`, `pending`, `failed` or
  `unknown`, with one rule per kind.
- `calculateAge` turns a creation timestamp into a coarse age label such as
  `1d1h`, `3h12m` or `45m`.
- `generateResourceInfo` projects each resource onto the row the report
  shows.
- `generateKindStats` counts resources per kind and sorts the counts by kind
  name.
- `countNamespaces` counts the distinct namespaces, reporting 1 when there
  are none.

Modules:

- `Seqs` (seqs.dfy): small facts about sequence concatenation used by the
  proofs.
- `Values` (values.dfy): the decoded records `K8sResource` and `K8sList`,
  and the dynamic values behind `interface{}`.
- `Text` (text.dfy): the parts of Go's `strings` and `fmt` the engine uses:
  - `strings.Split` on `"---"` and its inverse `strings.Join`
  - `strings.TrimSpace` with `unicode.IsSpace`
  - `strings.ToLower` and `strings.Contains`
  - Go's `<` on strings
  - `%d` formatting
- `Status` (status.dfy): `getResourceStatus`.
- `Age` (age.dfy): `calculateAge`.
- `Parse` (parse.dfy): `parseKubernetesYAML`, written as a method with the
  Go code's loop.
- `Projection` (projection.dfy): `generateResourceInfo`, written as a loop
  method that can stop early on a panic.
- `Stats` (stats.dfy): the two aggregators, each written as methods with the
  Go code's loops.
  - Kind stats are built in three steps:
    1. A map is filled.
    2. The map is drained, in an order the map does not fix.
    3. The entries are sorted in place in an array.
  - `countNamespaces` fills a `map[string]bool`.

External collaborators are parameters:

- `show: Value -> string` stands for `fmt.Sprintf("%v", ·)` on a metadata
  value.
- `elapsedSince: string -> Option<int>` stands for `time.Parse(time.RFC3339,
  ·)` followed by `time.Since`. It gives nanoseconds, or None when the
  timestamp does not parse.
- A `Decoder` stands for `yaml.Unmarshal` of one document into a `K8sList`
  and into a `K8sResource`. It gives None on a decode error.

In three places the code behaves differently than one might assume, and the
model follows the code:

- Documents are split on every occurrence of `---` (`strings.Split`), not
  only on separator lines. A `---` inside a value also splits.
- For kinds without a dedicated rule, the code asserts `condType.(string)`
  unchecked. A condition whose `type` is not a string therefore panics the
  program rather than yielding `unknown`. `ClassifyStatus` returns
  `Panic(…)` there. `GenerateResourceInfo` propagates the first such panic,
  so the report is never produced.
- For a negative elapsed time (a timestamp in the future), Go's truncating
  `/` and `%` give a minute count in (-60, 0], not 0–59. Beyond an hour in
  the future, that count wraps modulo 60.

## Model

| member | source | states |
|---|---|---|
| Values.MetadataField | main.go:1019-1020 | a metadata key is present exactly when the metadata map is non-nil and holds it, and then its value is returned |
| Text.Split | main.go:982 | `strings.Split` always returns at least one piece; a text without `---` is one piece |
| Text.SplitJoin | main.go:982 | joining the pieces of `strings.Split(s, "---")` with `"---"` gives back `s` |
| Text.SplitPiecesFree | main.go:982 | no piece of the split contains `"---"` |
| Text.TrimSpace | main.go:985 | the trimmed text is no longer than the input, neither starts nor ends with a space, and is empty exactly when the input is all spaces |
| Text.TrimSpaceShape | main.go:985 | `TrimSpace(s)` is the substring of `s` left after removing an all-space prefix and suffix |
| Text.TrimSpaceIdempotent | main.go:985 | trimming a trimmed document changes nothing |
| Text.ToLower | main.go:931-932 | lower-casing keeps the length and leaves no ASCII capital: each ASCII capital becomes its lower-case letter, U+0130 becomes `i`, U+212A becomes `k`, and every other character is kept |
| Text.ToLowerIdempotent | main.go:931-932 | lower-casing twice is lower-casing once |
| Text.LessFirstDifference | main.go:1071-1073 | Go's `a < b` on strings holds exactly when `a` is a proper prefix of `b`, or `a` has the smaller character at the first index where they differ |
| Text.LessIrreflexive | main.go:1071-1073 | Go's string `<` is irreflexive |
| Text.LessAsymmetric | main.go:1071-1073 | Go's string `<` is asymmetric |
| Text.LessTransitive | main.go:1071-1073 | Go's string `<` is transitive |
| Text.LessTotal | main.go:1071-1073 | any two distinct strings are ordered one way or the other |
| Text.IntText | main.go:969-973 | `%d` writes a `-` exactly for a negative number, followed by decimal digits with no leading zero (a lone `0` for zero) |
| Text.ParseIntExact | main.go:969-973 | the only text that reads back as `n` is the one `%d` writes for `n` |
| Text.NatTextOfDigits | main.go:969-973 | digits without a leading zero are exactly what `%d` writes for the number they denote |
| Text.IntTextRoundTrip | main.go:969-973 | the decimal text `%d` writes for an integer, sign included, reads back as that integer |
| Status.RuleFor | main.go:891-924 | the switch picks the Pod rule exactly for `Pod`, the controller rule exactly for Deployment, ReplicaSet, StatefulSet and DaemonSet, the always-running rule exactly for Service, ConfigMap and Secret, and the default rule for every other kind |
| Status.PhaseLabel | main.go:893-903 | a phase gives `running`, `pending` or `failed` exactly when it is the string Running, Pending, or Failed/Error, and `unknown` for any other value |
| Status.ControllerScan | main.go:906-918 | the controller loop returns `running` exactly when some condition is a mapping with `type == "Available"` and `status == "True"` as exact strings |
| Status.ReadyTypeIgnoresCase | main.go:931-932 | the ready-type test gives the same answer for a type and its lower-cased form |
| Status.ReadyTypeExamples | main.go:931-932 | `Ready`, `ContainersReady`, `Available` and `READY` are ready-like types |
| Status.ProgressingNotReady | main.go:931-932 | `Progressing` is not a ready-like type |
| Status.GenericScan | main.go:926-942 | the custom-kind loop yields `running`, `unknown` or a panic, and nothing else |
| Status.GenericScanRunning | main.go:926-942 | the custom-kind loop yields `running` exactly when some condition is ready (string `type` containing "ready" or "available" after lower-casing, `status == "True"`) and no condition before it has a non-string `type` |
| Status.GenericScanPanics | main.go:930-932 | the custom-kind loop panics exactly when some condition has a non-string `type` and no condition before it is ready |
| Status.ClassifyStatus | main.go:880-945 | a nil or non-mapping `status` gives `unknown`; only custom kinds can panic; only Pods can be `failed`; only Pods and rollout controllers can be `pending` |
| Status.PodStatus | main.go:892-903 | a Pod is `running`, `pending` or `failed` exactly when `phase` is the string Running, Pending, or Failed/Error; any other phase or none gives `unknown` |
| Status.ControllerStatus | main.go:905-919 | a Deployment, ReplicaSet, StatefulSet or DaemonSet is `running` when some condition is Available/True and `pending` otherwise, with missing conditions included |
| Status.FixedKindStatus | main.go:920-923 | Service, ConfigMap and Secret are `running` whenever `status` is a mapping, and `unknown` otherwise |
| Status.CustomKindStatus | main.go:924-942 | whenever a custom kind does not panic, it is `running` exactly when some condition is ready, and `unknown` otherwise; a non-string `type` after the first ready condition is never reached |
| Status.FirstReadyTyped | main.go:928-936 | when the custom-kind loop does not panic, no condition before the first ready one has a non-string `type` |
| Status.CustomKindPanics | main.go:930-932 | a custom kind panics exactly when a non-string `type` comes before any ready condition |
| Age.TruncDiv | main.go:964-966 | Go's integer division truncates toward zero: the quotient is bounded by the dividend on the zero side |
| Age.TruncMod | main.go:965-966 | Go's `%` takes the sign of the dividend and completes the division identity |
| Age.BucketOf | main.go:964-973 | the days-and-hours shape is chosen exactly from one day up, hours-and-minutes exactly from one hour up to a day, and minutes alone exactly below an hour, a negative duration included |
| Age.BucketText | main.go:968-974 | every label has at least two characters and ends in `h` exactly for the days-and-hours shape, and in `m` otherwise |
| Age.CalculateAge | main.go:948-975 | a non-string or unparsable timestamp gives `unknown`; otherwise the label is exactly the `%d` text of the elapsed time's bucket |
| Age.CalculateAgeReadsBack | main.go:948-975 | every age label reads back as the bucket of the elapsed time, and only `unknown` fails to read back |
| Age.BucketOfDays | main.go:964-969 | at least a day shows as whole days and the whole hours (0–23) left over |
| Age.BucketOfHours | main.go:964-971 | from one hour up to a day shows as whole hours (1–23) and the whole minutes (0–59) left over |
| Age.BucketOfMinutes | main.go:966-973 | under an hour shows as its whole minutes (0–59) |
| Age.BucketOfNegative | main.go:964-973 | a negative elapsed time always shows as minutes, with a count in (-60, 0]; within the hour that count is the negated whole minutes, and beyond it the negated whole minutes modulo 60 |
| Age.AgeExampleDay | main.go:964-969 | 25 hours 3 minutes shows as `1d1h` |
| Age.AgeExampleMinutes | main.go:966-973 | 45 minutes shows as `45m` |
| Age.BucketTextRoundTrip | main.go:968-974 | every age label reads back as the bucket it was written from, so distinct buckets give distinct labels |
| Age.ParseAgeExact | main.go:968-974 | the only text that reads back as a bucket is the label written for that bucket |
| Parse.Accept | main.go:990-1002 | a `List` document contributes its items unchecked and in order; any other document contributes its decoded resource when that has a non-empty kind, and nothing otherwise |
| Parse.Contributions | main.go:984-1003 | every resource the pieces contribute comes from the contribution of one of the pieces |
| Parse.Parsed | main.go:982-1003 | the parsed resources are what the trimmed, non-empty documents of the split contribute, one after the other |
| Parse.ParseKubernetesYAML | main.go:978-1005 | the error is always nil, and the resources are the contributions of the trimmed, non-empty pieces of the split, in order |
| Parse.ContributionsAreDocuments | main.go:984-988 | empty pieces contribute nothing, so parsing is accepting the trimmed, non-empty documents one after the other |
| Parse.DocumentsWellFormed | main.go:982-988 | every document handed to the decoder is non-empty, already trimmed and free of `---` |
| Parse.ParsedOrigin | main.go:990-1002 | every parsed resource has a non-empty kind or is an item of a `List` document |
| Parse.SplitConcat | main.go:982 | a `---` after a text that does not end in `-` splits exactly there |
| Parse.ParsedConcat | main.go:982-1003 | two texts joined by `---` parse to the first text's resources followed by the second's |
| Projection.MetadataText | main.go:1019-1025 | a name or namespace is the `%v` text of the metadata value when present, and empty otherwise |
| Projection.Project | main.go:1012-1028 | a row carries the resource's kind, API version and status label, its formatted name and namespace, and its age (empty without a timestamp); it panics exactly when the classifier does |
| Projection.GenerateResourceInfo | main.go:1008-1053 | it succeeds exactly when no resource's status panics, giving one row per resource in order; otherwise it reports the first resource's panic |
| Projection.ProjectionKeepsOrder | main.go:1011-1049 | row `i` has resource `i`'s kind and API version and one of the four labels |
| Projection.AgeColumn | main.go:1026-1028 | the age column is empty exactly when there is no `creationTimestamp`; it is `unknown` for a non-string or unparsable one, and otherwise the label of the elapsed time's bucket |
| Stats.CountKindPositive | main.go:1061-1063 | a kind occurs among the resources exactly when its count is positive |
| Stats.TallyKinds | main.go:1059-1063 | the map has a key for exactly the kinds that occur, and each maps to the number of resources of that kind |
| Stats.MapEntries | main.go:1065-1068 | the entries are one per key of the map, with distinct kinds and the map's counts |
| Stats.SortByKind | main.go:1071-1073 | the array ends up strictly ascending by kind and is a permutation of what it held |
| Stats.GenerateKindStats | main.go:1058-1076 | the result is strictly ascending by kind, has an entry for exactly the kinds that occur, and each entry's count is the number of resources of that kind |
| Stats.KindStatsShape | main.go:1058-1076 | kinds are distinct, every count is at least 1, the counts sum to the number of resources, and the result is empty exactly when the input is |
| Stats.KindStatsUnique | main.go:1066-1073 | the result does not depend on the order in which the map is iterated: there is only one sorted kind-stats list |
| Stats.KindStatsExample | main.go:1058-1076 | three Pods and a Service give `[(Pod, 3), (Service, 1)]` |
| Stats.Namespaces | main.go:1082-1088 | there are no more distinct namespaces than resources |
| Stats.NamespacesMembers | main.go:1082-1088 | a text is a counted namespace exactly when some resource's `namespace` metadata formats to it |
| Stats.CountNamespaces | main.go:1079-1095 | the result is the number of distinct namespace texts, or 1 when there are none, so it lies in 1..max(1, number of resources) |
| Stats.NamespaceCountExample | main.go:1079-1095 | namespaces `a`, `b`, `a` count as 2 |

## Left out

- Decoding and encoding YAML (`yaml.Unmarshal`, `yaml.Marshal`) are parameters, or are not modelled.
- The `YAML` and `Parsed` fields of `ResourceInfo`, and the error placeholders written when re-encoding fails (main.go:1031-1047), are not modelled.
- Parsing RFC 3339 timestamps and reading the clock are replaced by the `elapsedSince` parameter.
- `calculateAge` computes with `float64` (`Hours()`, `Minutes()` and then `int(…)`). The model uses exact integer division of nanoseconds, which agrees except where float rounding lands on a bucket boundary.
- The 64-bit range of `time.Duration` (saturation of `time.Since` for timestamps centuries away) is not modelled; durations are unbounded integers.
- `fmt.Sprintf("%v", ·)` on metadata values is the `show` parameter. `%d` is modelled.
- Values: YAML floats, timestamps decoded as non-strings, and mappings with non-string keys are not modelled. The `Value` type has null, booleans, integers, strings, sequences and string-keyed mappings.
- Text.ToLower: only ASCII capitals, U+0130 and U+212A are lower-cased. These are the only characters whose lower-case form is ASCII, so whether the result contains "ready" or "available" is unaffected. Other characters keep their case.
- Go's nil slices (returned for an empty input by `parseKubernetesYAML`, `generateResourceInfo` and `generateKindStats`) are modelled as empty sequences; their `null` JSON encoding is not modelled.
- `json.Marshal` of the page data, the HTML template and its JavaScript, the command-line flags, running `kubectl`, the HTTP server and `main` are not part of this model.
- `sort.Slice` is modelled by an insertion sort with the same comparator. Since kinds are distinct keys, every correct sort gives the same result (Stats.KindStatsUnique).
