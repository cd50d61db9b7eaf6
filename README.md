# ECS task-definition editor, modelled in Dafny

The program reads an Amazon ECS task definition (a JSON document) and edits one
container in it. Every entry of the `containerDefinitions` array whose `name`
is the requested container is changed in three ways:

- its `image` gets a new tag, when a tag is given;
- `logConfiguration.options.dd_tags` is set to the comma-joined Datadog tags;
- `environment` is replaced by the variables given as `KEY=VALUE` entries on
  the command line.

The entries are checked in array order. The first malformed entry stops the
edit with an error, even when it is not the target.

This project models that edit and proves what it does:

- `strings.dfy` (module `Strings`): Go's `strings.Split` and `strings.Join`
  for a one-character separator. Joining the parts of a split gives back the
  string, and splitting the join of a non-empty list of parts that do not
  contain the separator gives back the list.
- `errors.dfy` (module `Errors`): the error variants the program reports. It
  also holds the `Option` and `Result` wrappers.
- `document.dfy` (module `Document`): the decoded JSON tree `JVal`. It holds
  the three shape-checked lookups `ExtractSlice`, `ExtractMap` and
  `ExtractString`, and `SetField`, which stores a value under a key of an
  object.
- `environment.dfy` (module `Environment`): `EnvironmentVariable` as
  `EnvVar`, and the parser `ToEnvironmentVariables`. The parser is a loop
  method proved against the predicate `Spells`. The module also defines the
  JSON value the parsed list becomes, and proves that this value reads back
  as the same list.
- `containers.dfy` (module `Containers`): the edit as pure functions. `Retag`
  rewrites the image. `VisitDefinition` handles one container definition.
  `Walk` folds the visits over the array and stops at the first failure.
  `Modify` applies the edit to the whole document. The lemmas here state what
  the edit means:
  - which definitions fail, and with which error;
  - a matching definition is `Patched` field by field;
  - everything else is untouched;
  - a document without a matching definition is left unchanged;
  - a second run changes nothing.
- `task_definition.dfy` (module `TaskDefinition`): the class
  `TaskDefinitionData`, whose field `root` is the document. Its method
  `ModifyContainerDefinition` is the imperative loop of the program. Its
  postcondition says that the new document and the returned error are
  exactly those of `Containers.Modify`.

The Go program mutates nested maps that the document shares. Changes made
before an error therefore stay in the document. For example, an image
rewritten just before a missing `logConfiguration` is found stays rewritten.
The model reproduces this: the method writes each change into `root` as it is
made. The pure functions return the partly edited state together with the
error.

## Model

| member | source | states |
|---|---|---|
| Strings.Split | main.go:33 | splitting gives one part more than there are separators, and no part contains the separator |
| Strings.JoinSplit | main.go:33 | joining the parts of a split with the same separator gives back the original string |
| Strings.SplitJoin | main.go:149 | for a non-empty list of tags none of which contains the separator, splitting their join gives back exactly that list |
| Strings.Join | main.go:149 | joining no parts gives "" (so no tags give an empty dd_tags); joining parts that do not contain the separator puts exactly one separator between each two of them; JoinSplit and SplitJoin state that it inverts Split |
| Strings.SplitPair | main.go:33-40 | "a=b" with no '=' in a or b splits into exactly [a, b] |
| Environment.ToEnvironmentVariables | main.go:30-43 | succeeds exactly when every entry contains exactly one '='; on success it returns one pair per entry, in order, each the text before and after the '=', with duplicates kept; on failure it returns the error for the first bad entry and no partial list |
| Environment.SpelledPairIsUnique | main.go:33-40 | an entry spells at most one name/value pair, so the parse result is determined by the entry |
| Environment.EnvironmentRoundTrip | main.go:14-17 | the JSON value stored under environment, an array of name/value objects or null for no variables, reads back as exactly the list that was stored |
| Environment.EnvironmentJson | main.go:150 | the value stored under environment is null exactly when there are no variables, and otherwise an array holding one name/value object per variable, in order; EnvironmentRoundTrip reads it back |
| Document.ExtractSlice | main.go:59-70 | fails with a missing-key error when the key is absent and with a wrong-shape error when its value is not an array; succeeds exactly when the value is an array, and returns that array |
| Document.ExtractMap | main.go:72-89 | fails when the source is not a map, when the key is absent, and when the value is not a map, in that order; succeeds exactly otherwise and returns the map stored under the key |
| Document.ExtractString | main.go:91-108 | fails when the source is not a map, when the key is absent, and when the value is not a string, in that order; succeeds exactly otherwise and returns the string stored under the key |
| Document.SetField | main.go:139 | storing a value under a key adds that key, stores the value there and leaves every other key unchanged |
| Document.ReadOtherAfterWrite | main.go:139-150 | storing under one key leaves the lookups of every other key unchanged |
| Containers.Retag | main.go:130-140 | the image rewrite succeeds exactly when the image has at most one ':', and otherwise fails with the too-many-colons error for that image |
| Containers.RewriteImage | main.go:130-140 | without a tag the definition is returned unchanged and the image is not read; with a tag a missing or non-string image fails with the lookup's error, an image with more than one ':' fails with the too-many-colons error, and otherwise the image is replaced by its Retag, every failure leaving the definition as it was |
| Containers.PatchLogging | main.go:141-150 | fails with the lookup's error, leaving the definition as it was, exactly when logConfiguration or its options is missing or not a map; otherwise options.dd_tags is the comma-joined tags and environment is the stored variables (VisitPatchesTarget states the whole result) |
| Containers.RetagAppendsTag | main.go:135-139 | an image without ':' becomes image + ":" + tag |
| Containers.RetagReplacesTag | main.go:135-139 | an image "repo:old" becomes "repo:tag" |
| Containers.RetagIdempotent | main.go:135-139 | retagging twice with the same colon-free tag gives the same image as retagging once |
| Containers.RetagWithColonTagNotRepeatable | main.go:135-139 | with a tag that contains ':', the retagged image has two colons and a second retag fails |
| Containers.VisitSucceedsIff | main.go:116-150 | visiting a definition succeeds exactly when it conforms: it is a map with a string name, and if it is the target, it has a string image with at most one ':' (when a tag is given) and logConfiguration and options maps |
| Containers.VisitPatchesTarget | main.go:130-150 | a conforming target comes out Patched: image retagged if a tag is given, dd_tags set to the comma-join, environment replaced, every other field and option unchanged |
| Containers.VisitDefinitionSpec | main.go:116-150 | a visit succeeds exactly on conforming definitions; a conforming non-target is unchanged and a conforming target is Patched |
| Containers.VisitDefinition | main.go:116-150 | a definition that is not a map, or has no name or a name that is not a string, fails with that error, whether or not it is the target; a definition with another name is left unchanged without error; a target given a tag whose image is missing or not a string fails with that lookup's error, and one whose image has two or more colons fails with the too-many-colons error, both unchanged; a target given no tag whose logConfiguration or options is missing or not a map fails with that lookup's error and is unchanged (with a tag, RetagSurvivesLoggingFailure states that case; VisitPatchesTarget states the success) |
| Containers.RetagSurvivesLoggingFailure | main.go:139-148 | a target with a good image whose logConfiguration or options is missing or not a map fails with that lookup's error, and the state it is left in already carries the new image |
| Containers.VisitDefinitionIdempotent | main.go:127-150 | visiting an edited definition again succeeds and changes nothing, for a colon-free tag |
| Containers.ApplyOutcome | main.go:115-151 | applying visits in order fails exactly when one fails, with the first failure's error; definitions up to it take their visited state and later ones are untouched |
| Containers.FirstFailureIsFirstNonConforming | main.go:115-126 | the first failing visit is at the first non-conforming definition, in index order |
| Containers.Walk | main.go:115-151 | the walk keeps one entry per definition, at its position; WalkOutcome states which entries change and which error stops it |
| Containers.WalkOutcome | main.go:115-151 | the walk fails exactly when some definition does not conform, with the error of the first one even if it is not the target; every definition up to it is in its visited state, so earlier targets stay edited, and every later one is unchanged |
| Containers.WalkIdempotent | main.go:115-151 | walking a successfully walked array again, with a colon-free tag, changes nothing |
| Containers.Modify | main.go:110-153 | the edit keeps the set of root keys and never changes a root key other than containerDefinitions |
| Containers.ModifyRejectsMalformedRoot | main.go:111-114 | a missing or non-array containerDefinitions fails with that error and leaves the document unchanged |
| Containers.ModifyOutcome | main.go:110-153 | over an array, the edit fails exactly at the first non-conforming definition, with its error; before it every target is Patched (all of them, not just the first) and every other definition is unchanged; the failing one is left in the state its visit reached, keeping an image already rewritten; after it every definition is unchanged |
| Containers.ModifyWithoutMatchIsIdentity | main.go:127-129 | when every definition has a string name and none is the target, the edit succeeds and the document is unchanged |
| Containers.ModifyIdempotent | main.go:110-153 | running a successful edit a second time, with a colon-free tag, gives the same document |
| TaskDefinition.TaskDefinitionData.ModifyContainerDefinition | main.go:110-153 | the document after the in-place edit, and the returned error, are exactly those of Modify on the document before it, including changes made before an error |
| TaskDefinition.TaskDefinitionData.ModifyDefinitionAt | main.go:116-150 | the in-place edit of one definition stores exactly the state of VisitDefinition in the array and in the document, and returns its error |

## Left out

- Reading and writing files, standard output, and command-line flag parsing
  (`ReadTaskDefinition`, `main`). The model starts from an already decoded
  document and an already collected list of entries.
- JSON text decoding and encoding (`json.Unmarshal`, `json.Marshal`,
  `MarshalToJSON`). These are library calls. Numbers are kept opaque as
  `JNum(real)`, and no lemma looks at them.
- `FlagsArray.String` and `FlagsArray.Set`. They only join and append to the
  list of flag values; the model takes that list as a parameter.
- The text of the error messages. The model produces the error variant and
  its data: the key, the expected shape, the definition index, the offending
  entry or image.
- Byte strings. Go strings are byte sequences, and the model's strings are
  sequences of characters. Splitting on ':' or '=' and joining with ',' agree
  on valid UTF-8, because an ASCII byte never occurs inside a multi-byte
  character. An entry or a document string that is not valid UTF-8 cannot be
  represented.
- Aliasing inside the document. A decoded document never shares one map
  between two places, so the model stores each definition by value and
  writes it back after every change.
- Environment.EnvironmentJson: the edit stores a Go slice of pointers, and
  the model stores the JSON value that slice encodes to. For no variables
  that is `null`, because the parser's slice is then nil.
- TaskDefinition.TaskDefinitionData.ModifyDefinitionAt: the body of the loop
  is a separate method for the proof. It performs the same steps in the same
  order as the loop body.
- Containers.RetagIdempotent: retagging is idempotent only for a tag without
  ':'. An image with at most one colon is not enough, and
  `RetagWithColonTagNotRepeatable` proves the counterexample. The same
  condition is on `VisitDefinitionIdempotent`, `WalkIdempotent` and
  `ModifyIdempotent`.
