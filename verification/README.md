# Verified models of 1flowbase algorithms

This project models eight pieces of the 1flowbase repository and proves what they are for. Each
module follows one source file; shared text and JSON operations are in `Strings`, `JsonValues`
and `JsonPointer`. `dafny verify dfyconfig.toml` checks everything.

- **ThinkTags** – the splitter that turns a model's text stream, cut into arbitrary deltas, into
  text and reasoning parts. `Scan` is a reference parser that sees the whole text and moves one
  character at a time; what the splitter has released is that parse minus the held tail, however
  the text was cut, and the held tail is exactly what is still undecided.
- **OpenApiDocs** (with **SubDocument** and **JsonPointer**) – the worklist that closes chosen
  operations under `$ref`. `Span` is the declarative sub-document a set of places spans; the
  worklist builds `Span` of the least reference-closed set, whatever the insertion order. From
  that follow leastness, monotonicity and, in **SelfContainment**, an exact condition for every
  reference of the result to resolve inside it. **DocsRegistry** closes every operation and every
  category of a description with it.
- **Redaction** and **ConfigScrub** – moving secrets out of a configuration tree into a store, and
  masking them in later output: round trip, completeness, idempotence, composition.
- **HeavyVerifyLock** – the inter-process lock as a transition system in which every file-system
  call is its own step. Exclusion is lost at exactly one kind of step, the removal of a directory
  by a process that judged it stale while a live process holds the lock; the first time that
  happens in a run, the holder has published after the remover's last read. Such runs exist, and
  do not when each removal directly follows its read.
- **ProviderHosts** – the plugin runner's two-map package cache over a changing package store, and
  the exact store histories over which the cache never serves an outdated package.
- **StreamCoalescers** – live and batch merging of stream deltas.
- **CleanArtifacts** – nested-path de-duplication and the byte total of the union.
- **ModelProviders** – the instance lifecycle under interleaved writers with stale reads, and
  exactly when a write brings a disabled instance back.

A `char` is one Unicode scalar value; where the source compares byte lengths (`str::len`),
`ByteLen` gives the UTF-8 length. A `serde_json` value is `Json`, with an object as a map. A
number is an integer, which is all the modelled code looks at. The order in which a hash set or
an object is walked never matters to a result stated here; where the source sorts, the model
sorts. Clocks, process liveness, the package directories and the repository are parameters or
state of a transition system.

Several promises of the code hold under a condition only. These are proved with their exact
condition, as equivalences:

- For plain pointers and scheme names, a reference in a closed sub-document resolves to its
  canonical node if and only if the needed places hold that node (`ResolvesExactly`), and the
  document is self-contained if and only if this is so of the references the worklist does not
  follow (`SelfContainedExactly`), which are exactly those of needed schemes and needed places that
  are `$ref` members themselves (`UnfollowedExactly`). `RefMemberDangles` and `SchemeRefDangles` are
  whole documents on which the closure succeeds and a reference dangles.
- Insertion and lookup agree on a pointer or a scheme name if and only if it is plain (`TokensAgree`,
  `SchemeTargetAgrees`): a pointer such as `#/components//x` or `#/componentsX`, or a scheme name
  with `/`, is looked up in one place and inserted in another. `DoubledDangles` is a whole document
  on which the closure succeeds and its one reference, which is not plain, dangles.
- Putting recorded secrets back rebuilds the configuration if and only if nothing was removed, or
  the store could be written and no key on the way to a removed value holds a slash (`RoundTrip`).
- A secret never survives its own redaction if and only if it is mask-safe (`SafeExactly`), and its
  redaction is idempotent if and only if it is mask-safe or the mask (`IdempotentExactly`). A text
  that is itself a secret becomes the bare mask if and only if neither `*` nor `**` is a secret
  replaced after it (`WholeSecretMasked`). For sets of secrets, `RedactionComplete` and
  `RedactionIdempotent` give sufficient conditions.
- A truthful `load_if_needed` is always fresh if and only if, at every root, content seen between
  two sights of one identity is still there at the second (`FreshExactly`). Identities that change
  with the content are not enough; identities that never come back are.
- Coalescing goes as far as the limit allows if and only if no empty delta interrupts a filling
  buffer of the other kind that then goes on (`MergedExactly`).
- The byte total is the size of the union of the existing targets if and only if each target that
  is not skipped, and has a size, is given once and lies under no other (`SumTargetBytes`);
  otherwise it is larger.
- An operation outside `/api/<segment>` is alone in its category if and only if no such segment
  reads `single:` and its id (`SingleIsAlone`).
- A write brings a disabled instance back if and only if its read was taken while the instance was
  not disabled (`RevivesExactly`).

## Model

| member | source | states |
|---|---|---|
| ThinkTags.ThinkTagStreamSplitter.Split | api/crates/control-plane/src/orchestration_runtime.rs:1184-1230 | one call releases exactly the reference parse of pending text plus delta minus the held tail, as non-empty parts that alternate in kind, and leaves the mode and pending text of that parse |
| ThinkTags.SplitStream | api/crates/control-plane/src/orchestration_runtime.rs:1039-1062 | one splitter fed all deltas of a stream emits, in all, the parse of their concatenation minus the held tail, which is never flushed; in terms of the text: it is segments with `<think>` and `</think>` in turns between them, each the leftmost, and what is emitted are the segments' characters, in turns text and reasoning, all but the held end of the last |
| ThinkTags.ScanFinds | api/crates/control-plane/src/orchestration_runtime.rs:1198-1223 | the parse of segments woven with the two tags, each leftmost, is the segments' characters, in turns text and reasoning, with one tag counted between each two |
| ThinkTags.ReleasedShows | api/crates/control-plane/src/orchestration_runtime.rs:1184-1230 | every text has such segments, and a fresh splitter releases them but for the held end of the last |
| ThinkTags.PlainSegments | api/crates/control-plane/src/orchestration_runtime.rs:1184-1230 | segments without `<` are released whole, nothing is held, and the mode is reasoning exactly after an odd number of tags |
| ThinkTags.OneThought | api/crates/control-plane/src/orchestration_runtime.rs:1198-1223 | of `a<think>t</think>b` without other `<`, `t` is released as reasoning and `a` and `b` as text |
| ThinkTags.ReleasedAppend | api/crates/control-plane/src/orchestration_runtime.rs:1184-1230 | feeding `a + b` equals feeding `a`, then `b`: same characters with kinds, mode and pending text |
| ThinkTags.ChunkingIrrelevant | api/crates/control-plane/src/orchestration_runtime.rs:1184-1230 | for every text and every cut into deltas the run ends as one split of the whole text does |
| ThinkTags.PartialTagPrefixLen | api/crates/control-plane/src/orchestration_runtime.rs:1246-1255 | the returned length is that of a suffix that is a proper prefix of the tag, and no longer suffix is one |
| ThinkTags.ReleasedIsCertain | api/crates/control-plane/src/orchestration_runtime.rs:1211-1226 | under every continuation the parse of the whole starts with what was released |
| ThinkTags.HeldIsUncertain | api/crates/control-plane/src/orchestration_runtime.rs:1211-1226 | some continuation turns all held characters into a tag, so not one more could have been released |
| ThinkTags.Conservation | api/crates/control-plane/src/orchestration_runtime.rs:1184-1230 | input length is released length plus 7 per `<think>`, 8 per `</think>` and the pending length; pending is shorter than the tag; opening and closing tags alternate |
| ThinkTags.PushPartAppends | api/crates/control-plane/src/orchestration_runtime.rs:1233-1244 | appending a part appends its characters and keeps parts non-empty and alternating |
| ThinkTags.PartsAreRuns | api/crates/control-plane/src/orchestration_runtime.rs:1233-1244 | the parts of a call are determined by the released characters: they are the maximal runs |
| JsonPointer.TokenRoundTrip | api/apps/api-server/src/openapi_docs.rs:496-499 | unescaping (lines 641-643) undoes escaping for every token, and an escaped token holds no slash, as section 4 of RFC 6901 requires |
| JsonPointer.TokensAgree | api/apps/api-server/src/openapi_docs.rs:609-639 | a component pointer is inserted where lookup finds it if and only if what follows `/components` is empty or has one leading slash |
| SubDocument.InsertSpans | api/apps/api-server/src/openapi_docs.rs:609-639 | inserting a canonical node at its own place adds its place to what is spanned, whatever overlapping nodes were inserted before, and fails only on a path that leaves the objects |
| SubDocument.SpanGet | api/apps/api-server/src/openapi_docs.rs:484-485 | every spanned place that the canonical document has holds exactly its node |
| SubDocument.SpanRefs | api/apps/api-server/src/openapi_docs.rs:400-417 | when all spanned places are there, the references inside a spanned document are exactly those inside the spanned nodes and the strings at spanned places that are `$ref` members |
| SubDocument.RefsExactly | api/apps/api-server/src/openapi_docs.rs:400-417 | the references of a value are exactly the strings at its places that end in `$ref` |
| SubDocument.SpanGetExactly | api/apps/api-server/src/openapi_docs.rs:609-639 | a node of the canonical document is in its place in a spanned one if and only if its path leads into a spanned node, or to an object all of which is spanned |
| SubDocument.SpanIsLeast | api/apps/api-server/src/openapi_docs.rs:463-507 | when all spanned places are there, a spanned document is part of every document that has the spanned nodes in place |
| SubDocument.RefMemberReadsAsRef | api/apps/api-server/src/openapi_docs.rs:400-406 | a spanned place that is a string member `$ref` makes its bare container read as a reference to that string, whatever else is spanned |
| SubDocument.NothingBeside | api/apps/api-server/src/openapi_docs.rs:609-639 | a spanned document holds nothing at a place that lies beside all spanned places |
| OpenApiDocs.CloseRefs | api/apps/api-server/src/openapi_docs.rs:463-492 | the worklist terminates; it inserts reachable references, each once, and on success all of them; then each is a component that resolves and, when all are plain, what is built is exactly what they span; on failure it names a reachable reference at fault |
| OpenApiDocs.ReachIsLeast | api/apps/api-server/src/openapi_docs.rs:463-492 | the references reached by chains from the roots hold the roots, are closed under nested references, and are part of every set that does and is |
| OpenApiDocs.ScopePaths | api/apps/api-server/src/openapi_docs.rs:436-461 | succeeds if and only if every operation is declared; keeps of each path item exactly the chosen operations and the members that are no operation, and collects the tags of the chosen operations |
| OpenApiDocs.ScopedPathsExactly | api/apps/api-server/src/openapi_docs.rs:436-461 | place by place: the result has, of a path with a chosen operation, the chosen operations and every member that is none of the eight methods, as they stand in the document, and nothing else |
| OpenApiDocs.TagsExactly | api/apps/api-server/src/openapi_docs.rs:240-251 | an operation's tags are the strings in its list `tags`, and a declared tag is named by the string at `name` |
| OpenApiDocs.KeptTagsExactly | api/apps/api-server/src/openapi_docs.rs:509-521 | the tags kept are exactly the declared ones so named, in their order |
| OpenApiDocs.ScopeSecurity | api/apps/api-server/src/openapi_docs.rs:555-593 | collects each requirement in force for some operation once, in order of first use |
| OpenApiDocs.RequirementsExactly | api/apps/api-server/src/openapi_docs.rs:570-578 | in force for an operation is its own list `security` or, without one, exactly the document's, or nothing |
| OpenApiDocs.FirstUsesInOrder | api/apps/api-server/src/openapi_docs.rs:580-587 | the requirements collected are the first uses, in their order |
| OpenApiDocs.SchemeResolves | api/apps/api-server/src/openapi_docs.rs:494-502 | the escaped lookup finds a security scheme under its own name, whatever the name |
| OpenApiDocs.SchemeTargetAgrees | api/apps/api-server/src/openapi_docs.rs:503-507 | the unescaped insertion puts it under its own name if and only if the name reads as itself in a pointer |
| OpenApiDocs.AddSchemes | api/apps/api-server/src/openapi_docs.rs:494-507 | inserts the named schemes in ascending order; on success each was found and, for plain names, exactly their places are added to what is spanned; on failure it names a scheme that is missing or, for plain names, blocked |
| OpenApiDocs.CloseScopedSpec | api/apps/api-server/src/openapi_docs.rs:423-553 | success implies everything needed was found and the result has exactly the scoped paths, the components that inserting the reachable references in some order and then the needed schemes builds (for plain pointers and names, the spanned ones), the collected security, the tags in use and the copied members; failure names a cause; when everything is found and every order of insertion works, as it does for plain pointers through objects, it succeeds |
| SelfContainment.ResolvesExactly | api/apps/api-server/src/openapi_docs.rs:423-553 | for plain pointers and names, a reference to any place of the document resolves in the result to the canonical node if and only if that place is held |
| SelfContainment.PlainHeld | api/apps/api-server/src/openapi_docs.rs:609-639 | for a plain component reference that means that the needed places hold its node |
| SelfContainment.UnfollowedExactly | api/apps/api-server/src/openapi_docs.rs:463-507 | for plain pointers and names, the references the worklist leaves out are exactly those of needed schemes and needed places that are string members `$ref`, unless reached otherwise |
| SelfContainment.SelfContainedExactly | api/apps/api-server/src/openapi_docs.rs:463-507 | for plain pointers and names, every `$ref` in the paths and components of the result resolves inside it to exactly the canonical node, if and only if each reference the worklist leaves out resolves and its place is held |
| SelfContainment.CleanWithoutSchemeRefs | api/apps/api-server/src/openapi_docs.rs:463-507 | for plain pointers and names, so it is when no needed place ends in `$ref` and no needed scheme refers to anything |
| SelfContainment.RefMemberDangles | api/apps/api-server/src/openapi_docs.rs:463-492 | a document with plain pointers through objects, so that the closure succeeds, in which an operation refers to a `$ref` member: the result holds a reference to a node it does not have |
| SelfContainment.SchemeRefDangles | api/apps/api-server/src/openapi_docs.rs:494-507 | a document with plain pointers through objects, so that the closure succeeds, in which a required scheme refers to a component: that reference dangles in the result |
| SelfContainment.DoubledDangles | api/apps/api-server/src/openapi_docs.rs:609-618 | a document on which every order of insertion works, so that the closure succeeds, in which an operation refers to a component by a pointer with two slashes: that reference dangles in the result |
| OpenApiDocs.SchemesPresent | api/apps/api-server/src/openapi_docs.rs:494-507 | for plain pointers and names, each needed security scheme is in the result under its own name, with its canonical value |
| OpenApiDocs.ComponentsAreLeast | api/apps/api-server/src/openapi_docs.rs:463-507 | for plain pointers and names, the components are part of those of every document in which the reachable references and needed schemes are in place |
| OpenApiDocs.OperationWithinCategory | api/apps/api-server/src/openapi_docs.rs:423-553 | for plain pointers and names, the components of a closure are a sub-document of those of every closure of more operations, and its hypotheses follow |
| DocsRegistry.BuildRegistry | api/apps/api-server/src/openapi_docs.rs:132-204 | visits every operation, paths ascending and methods in their fixed order; registers each under its own id with its closure, groups all by category in the order visited and closes every group; a fault names an item, operation, id or group that has it |
| DocsRegistry.EveryOperationVisited | api/apps/api-server/src/openapi_docs.rs:132-140 | the operations registered are exactly the members of path items named by one of the eight methods |
| DocsRegistry.MethodOrder | api/apps/api-server/src/openapi_docs.rs:8-10 | the eight methods and the order they are visited in |
| DocsRegistry.IdExactly | api/apps/api-server/src/openapi_docs.rs:145-149 | an operation's id is the string at its `operationId` |
| DocsRegistry.InCategoryInOrder | api/apps/api-server/src/openapi_docs.rs:177-180 | a category lists exactly its operations, in the order visited |
| DocsRegistry.CategoryExactly | api/apps/api-server/src/openapi_docs.rs:253-266 | the category is the segment after a first segment `api`, unless that is missing or starts with a brace; otherwise `single:` and the id |
| DocsRegistry.CategoryOfApi | api/apps/api-server/src/openapi_docs.rs:253-266 | so for `/api/s` and `/api/s/rest`, whatever the segment `s` |
| DocsRegistry.SameCategory | api/apps/api-server/src/openapi_docs.rs:253-266 | two operations share a category if and only if they have one segment after `api`, or are one single operation, or such a segment reads `single:` and the id of the other |
| DocsRegistry.GroupedBySegment | api/apps/api-server/src/openapi_docs.rs:177-204 | in the registry the operations listed under a segment are those with that segment, and a single one only if its category reads the same |
| DocsRegistry.SingleIsAlone | api/apps/api-server/src/openapi_docs.rs:177-204 | a single operation is alone in its category, but for operations whose segment reads as that category |
| DocsRegistry.OperationWithinItsCategory | api/apps/api-server/src/openapi_docs.rs:177-204 | each operation's document is served under its id and, when the category's pointers and names are plain, its components are a sub-document of those of its category's document |
| Redaction.OrderUnique | api/crates/control-plane/src/data_source.rs:1102-1104 | the order of the secrets, by descending byte length and then ascending, is unique |
| Redaction.EarlierExactly | api/crates/control-plane/src/data_source.rs:1102-1104 | that order compares the lengths of the UTF-8 encodings, then the first difference |
| Strings.ByteLenIsUtf8 | api/crates/control-plane/src/data_source.rs:1102-1104 | the length compared is that of the UTF-8 encoding (section 3 of RFC 3629) |
| Redaction.RedactString | api/crates/control-plane/src/data_source.rs:1097-1113 | the loop computes the redaction in that order |
| Strings.ReplaceIsJoin | api/crates/control-plane/src/data_source.rs:1107-1111 | a text is pieces with the leftmost occurrences of the secret between them; replacing keeps the pieces and puts the mask between them |
| Redaction.MaskingClears | api/crates/control-plane/src/data_source.rs:1107-1111 | one replacement leaves no occurrence of its secret, when that is mask-safe, and recreates no other mask-safe text that was absent |
| Redaction.RedactionComplete | api/crates/control-plane/src/data_source.rs:1097-1113 | the redacted string contains no mask-safe secret as a substring, whatever the other secrets are |
| Redaction.StarFreeIsMaskSafe | api/crates/control-plane/src/data_source.rs:1097-1113 | every non-empty secret without `*` is mask-safe |
| Redaction.RedactionIdempotent | api/crates/control-plane/src/data_source.rs:1097-1113 | a second redaction changes nothing, when each secret is the mask or contains a mask-safe secret |
| Redaction.WholeSecretMasked | api/crates/control-plane/src/data_source.rs:1102-1104 | longest first: a non-empty text that is itself a secret becomes the bare mask, with no remainder from a shorter secret, if and only if neither `*` nor `**` is a secret ordered after it |
| Redaction.SafeExactly | api/crates/control-plane/src/data_source.rs:1097-1113 | a secret never survives its own redaction, in any text, if and only if it is mask-safe: it does not start or end with `*` and does not contain the mask |
| Redaction.IdempotentExactly | api/crates/control-plane/src/data_source.rs:1097-1113 | redaction with one secret is idempotent on every text if and only if the secret is mask-safe or the mask |
| Redaction.CollectedIffLeaf | api/crates/control-plane/src/data_source.rs:1053-1076 | the collected secrets are exactly the non-empty string leaves |
| Redaction.LeavesExactly | api/crates/control-plane/src/data_source.rs:1053-1076 | and those are exactly the strings at some place of the value |
| Redaction.RedactedPlace | api/crates/control-plane/src/data_source.rs:1078-1095 | at every place of a redacted value stands the redaction of what stood there: a string is replaced by its own redaction, another scalar stays, and no place comes or goes |
| Redaction.RedactionKeepsShape | api/crates/control-plane/src/data_source.rs:1078-1095 | keys, array lengths and non-string scalars are unchanged |
| Redaction.RedactedValueClean | api/crates/control-plane/src/data_source.rs:1078-1095 | no string leaf of a redacted value contains a mask-safe secret |
| ConfigScrub.ConfigScrubber.Scrub | api/crates/control-plane/src/data_source.rs:905-956 | the recursion restores the path stack, returns the specified sanitized value, and stores exactly the removed values |
| ConfigScrub.SanitizeConfigAndMergeSecrets | api/crates/control-plane/src/data_source.rs:887-903 | fails if and only if an input is no object; otherwise the sanitized config is marked throughout, and the secret object has exactly the caller's members unchanged (a store is added to), a copy under its own key of each member removed whole that the caller did not have, and the store when anything was removed |
| ConfigScrub.SecretMemberMoves | api/crates/control-plane/src/data_source.rs:915-976 | a top-level member that bears a secret is replaced by a marker of exactly `secret_ref` and `secret_version`, and its value stands in the secret object under its key and in the store under `/` and the key |
| ConfigScrub.BearsExactly | api/crates/control-plane/src/data_source.rs:996-1016 | a member bears a secret if and only if its key is like a secret's, or it is the value of an item of `headers` named by a secret header, or the non-null value of `credentials` |
| ConfigScrub.SecretLikeExactly | api/crates/control-plane/src/data_source.rs:980-994 | a key is like a secret's if and only if, in lower case with `_` for `-` and space, one of seven words stands in it and it neither is `secret_version` nor ends in `_ref` |
| ConfigScrub.NormalTable | api/crates/control-plane/src/data_source.rs:981 | that normal form, by code points |
| Strings.LowerTable | api/crates/control-plane/src/data_source.rs:981 | lower-casing moves A to Z and nothing else |
| ConfigScrub.SecretHeaderExactly | api/crates/control-plane/src/data_source.rs:1018-1028 | a header name is secret if and only if, without white space around it and in lower case, it is one of six |
| ConfigScrub.UsizeOfIndex | api/crates/control-plane/src/data_source.rs:1030-1038 | every index below 2^64 parses, with or without a plus sign; no larger one and no text with another character does |
| ConfigScrub.ScrubMarks | api/crates/control-plane/src/data_source.rs:905-956 | in a sanitized tree every secret-bearing member, at any depth, holds a reference marker |
| ConfigScrub.MarkedIsFixed | api/crates/control-plane/src/data_source.rs:905-956 | scrubbing a tree marked throughout, with any reference, changes nothing and removes nothing, so the scrub is idempotent |
| ConfigScrub.RemovedUnnested | api/crates/control-plane/src/data_source.rs:915-935 | no two removed values were at one place or one inside another |
| ConfigScrub.PointersUnnested | api/crates/control-plane/src/data_source.rs:969-976 | pointers recorded for slash-free paths are pairwise distinct and none lies under another |
| ConfigScrub.SlashFreeDistinct | api/crates/control-plane/src/data_source.rs:969-976 | so no two removed values share a pointer when no key on the way to one holds a slash |
| ConfigScrub.PointerNamesPath | api/crates/control-plane/src/data_source.rs:969 | a recorded pointer names the place it was made from if and only if no token holds a slash |
| ConfigScrub.StoredValues | api/crates/control-plane/src/data_source.rs:958-978 | after all stores every entry's pointer holds the value of an entry with that pointer, what the store held elsewhere is kept, a store that is no object stays as it is, and the caller's other members are unchanged |
| ConfigScrub.MergedMembers | api/crates/control-plane/src/data_source.rs:959-967 | after all stores the members are exactly the caller's, one under each key a value was removed from at the top, holding such a value unless the caller had the key, and the store |
| ConfigScrub.NeverOverwritten | api/crates/control-plane/src/data_source.rs:959-967 | explicit top-level entries of the caller's secret object keep their values, all but a store object, which is added to |
| ConfigScrub.RoundTrip | api/crates/control-plane/src/data_source.rs:887-978 | putting each recorded value back at its pointer, in any order, rebuilds the original configuration if and only if nothing was removed, or the store is an object and no removed value had a slash on the way to it |
| ConfigScrub.LostLeafRemoved | api/crates/control-plane/src/data_source.rs:905-956 | a string leaf absent from the sanitized tree was inside a removed value |
| ConfigScrub.RemovedIsCollected | api/crates/control-plane/src/data_source.rs:1053-1076 | every non-empty string taken out of a configuration is collected from the merged secrets, when the store is an object and no two removed values share a pointer |
| ConfigScrub.RemovedIsRedacted | api/crates/control-plane/src/data_source.rs:1078-1095 | so no string leaf of a value redacted with those secrets contains it, when it is mask-safe |
| HeavyVerifyLock.StepExclusive | scripts/node/testing/verify-runtime.js:331-452 | from an exclusive state a step loses exclusion if and only if it removes the directory while a live process holds the lock |
| HeavyVerifyLock.RunExclusive | scripts/node/testing/verify-runtime.js:331-452 | in every run without such a removal at most one live process holds the lock non-reentrantly and the published record carries its pid and token |
| HeavyVerifyLock.FirstLateRemoval | scripts/node/testing/verify-runtime.js:353-357 | the first late removal of a run does end exclusion |
| HeavyVerifyLock.CollisionLooks | scripts/node/testing/verify-runtime.js:401-446 | a rename that collides leads where a look at the directory leads, to a read of its owner |
| HeavyVerifyLock.TimedOutByRead | scripts/node/testing/verify-runtime.js:378-446 | in every run an acquisition gives up only by a read of its own that found the directory held by a live process with another token, no sooner than its deadline |
| HeavyVerifyLock.ReentrantByRead | scripts/node/testing/verify-runtime.js:359-371 | in every run an acquisition ends reentrant only by a read of its own that found its own token |
| HeavyVerifyLock.StepFrame | scripts/node/testing/verify-runtime.js:331-452 | a step leaves alone other acquisitions unless their process dies, and the directory unless it publishes where there was none or removes; a dead process's directory stays |
| HeavyVerifyLock.LateRemovalAdmitsSecond | scripts/node/testing/verify-runtime.js:353-357 | three steps of the remover then make two holders |
| HeavyVerifyLock.LateRemovalHappens | scripts/node/testing/verify-runtime.js:349-357 | with read and removal apart there is a run with a late removal, without any crash |
| HeavyVerifyLock.PublishedSinceRead | scripts/node/testing/verify-runtime.js:349-376 | at the first late removal of a run the holder published after the remover's last read, and has held the lock since |
| HeavyVerifyLock.AtomicCleaningIsNeverLate | scripts/node/testing/verify-runtime.js:349-376 | when every removal directly follows its read, exclusion holds in every state of every run |
| HeavyVerifyLock.ReleaseEffect | scripts/node/testing/verify-runtime.js:207-213 | a holder's release goes on to remove the directory if and only if no other token is in it, always so while exclusion holds; a reentrant or repeated release changes nothing |
| HeavyVerifyLock.RemovesOwn | scripts/node/testing/verify-runtime.js:207-216 | up to the first late removal of a run, a handle that removes the directory removes its own published record and touches no other acquisition |
| HeavyVerifyLock.RemovesOnce | scripts/node/testing/verify-runtime.js:308-329 | in every run a handle removes the directory at most once |
| HeavyVerifyLock.ReleasesOnce | scripts/node/testing/verify-runtime.js:308-329 | in every run each release of a handle after its first changes nothing |
| HeavyVerifyLock.ReentrantNeverRemoves | scripts/node/testing/verify-runtime.js:359-371 | in every run a reentrant handle stays one unless its process dies, its releases change nothing, and it never removes the directory |
| HeavyVerifyLock.SleepsBounded | scripts/node/testing/verify-runtime.js:378-392 | in every run one acquisition sleeps at most ceil(waitTimeoutMs / pollIntervalMs) times |
| HeavyVerifyLock.LockHost.Acquire | scripts/node/testing/verify-runtime.js:331-452 | the undisturbed loop is a run of the transition system; its outcome is fixed by the owner found, and it gives up after exactly that many sleeps |
| ProviderHosts.ProviderHost.LoadSource | api/apps/plugin-runner/src/provider_host.rs:107-127 | succeeds if and only if the root holds a package with the expected id; then that package and the source are cached under its id and nothing else moves; otherwise nothing changes |
| ProviderHosts.ProviderHost.Load | api/apps/plugin-runner/src/provider_host.rs:94-105 | succeeds if and only if a package loads at the path; then it is cached from the canonical root, without an identity |
| ProviderHosts.FailureExplained | api/apps/plugin-runner/src/provider_host.rs:107-177 | each failure names its cause: a path that does not resolve, a root that does not load, another plugin there, or a plugin never loaded |
| ProviderHosts.ProviderHost.LoadIfNeeded | api/apps/plugin-runner/src/provider_host.rs:133-149 | succeeds if and only if the path resolves and the same root and identity are recorded, which then changes nothing, or the plugin loads there; then it is cached from the requested root, and what is cached is what a fresh load of the path gives whenever it did not skip, or the store so far was stable and the identities truthful; a failed call changes nothing |
| ProviderHosts.ProviderHost.Reload | api/apps/plugin-runner/src/provider_host.rs:151-177 | on success the cached package is what the recorded root holds now and nothing else moves; otherwise nothing changes |
| ProviderHosts.PerformEffect | api/apps/plugin-runner/src/provider_host.rs:107-177 | every call changes at most the entry of the package it returns, and keeps equal key sets whose keys are package ids |
| ProviderHosts.CallKeepsMemory | api/apps/plugin-runner/src/provider_host.rs:48-64 | through every truthful call, a cached source with an identity was seen with it at its root, and the cached package was there then or later |
| ProviderHosts.SkippedLoadIsFresh | api/apps/plugin-runner/src/provider_host.rs:133-149 | over a stable store history a truthful `load_if_needed` that succeeds, skipped or not, leaves exactly the package a fresh load of the path gives |
| ProviderHosts.FreshExactly | api/apps/plugin-runner/src/provider_host.rs:133-177 | in every sequence of calls every truthful `load_if_needed` is fresh, if and only if the store history is stable |
| ProviderHosts.UnstableServesStale | api/apps/plugin-runner/src/provider_host.rs:133-177 | wherever a history is not stable, loading, reloading and loading again serves an outdated package |
| ProviderHosts.NeverReusedIsStable | api/apps/plugin-runner/src/provider_host.rs:61-63 | identities that stand for one content and never come back make a history stable |
| ProviderHosts.RollbackServesStale | api/apps/plugin-runner/src/provider_host.rs:151-177 | a store that goes back to an earlier identity with its earlier package, with a reload in between, is served stale |
| ProviderHosts.ReloadIsFresh | api/apps/plugin-runner/src/provider_host.rs:151-177 | a successful reload caches what is at the recorded root and touches nothing else |
| ProviderHosts.ReusedIdentityServesStale | api/apps/plugin-runner/src/provider_host.rs:61-63 | an identity kept over changed content is served stale in a run from the empty host |
| StreamCoalescers.LiveEventCoalescer.Push | api/crates/control-plane/src/runtime_observability.rs:394-420 | one pushed event releases and buffers as specified |
| StreamCoalescers.CoalesceLive | api/crates/control-plane/src/runtime_observability.rs:381-446 | all pushes and the finish give the coalesced stream |
| StreamCoalescers.CoalesceBatch | api/crates/control-plane/src/runtime_observability.rs:163-197 | the batch gives the same coalesced stream, and publishes exactly what it returns |
| StreamCoalescers.PushAllKeepsItems | api/crates/control-plane/src/runtime_observability.rs:394-420 | at every point the two buffers are never both filled, and released plus buffered content is the input |
| StreamCoalescers.ReleasedPromptly | api/crates/control-plane/src/runtime_observability.rs:394-420 | at every point a buffer is empty or below the limit in UTF-8 bytes; a delta releases the other kind and any other event both |
| StreamCoalescers.CoalescedKeepsItems | api/crates/control-plane/src/runtime_observability.rs:163-197 | coalescing keeps the flattened sequence of text, reasoning and opaque events |
| StreamCoalescers.MergedExactly | api/crates/control-plane/src/runtime_observability.rs:394-420 | of two adjacent output deltas of one kind the first reached the limit, and none is empty, if and only if no empty delta flushes a filling buffer of the other kind that then goes on with only empty deltas between |
| StreamCoalescers.CoalescedMerges | api/crates/observability/src/delta_coalescer.rs:19-35 | so it is for every stream without empty deltas |
| StreamCoalescers.EmptyDeltaSplits | api/crates/control-plane/src/runtime_observability.rs:172-181 | an empty delta of the other kind keeps two short non-empty deltas apart: the output is exactly those two, and not merged |
| CleanArtifacts.NestedMeansUnder | scripts/node/clean-artifacts/core.js:147-150 | the test on relative paths means lying strictly below, except when the next segment starts with `..` |
| CleanArtifacts.DedupeNestedTargets | scripts/node/clean-artifacts/core.js:140-158 | keeps exactly the targets nested in no target, as often as they are given, in display order; they are pairwise unnested and everything else lies in one of them |
| CleanArtifacts.UnionOfOne | scripts/node/clean-artifacts/core.js:176-194 | the recursive size of a path is the size of the union of one target, counted by one walk of the whole tree |
| CleanArtifacts.MeasuredExactly | scripts/node/clean-artifacts/core.js:213-222 | a missing path and a dangling link count nothing, another link and a file their own size, a directory its own and all below it |
| CleanArtifacts.UnionAdds | scripts/node/clean-artifacts/core.js:224-228 | a target unrelated to the others adds exactly its own subtree to the union |
| CleanArtifacts.SumTargetBytes | scripts/node/clean-artifacts/core.js:224-228 | the total is never less than the size of the union of the subtrees of all targets that exist, and equal to it if and only if each target that is not skipped, and has a size, is given once and lies under no other |
| CleanArtifacts.PlainCountedOnce | scripts/node/clean-artifacts/core.js:147-150 | which holds of distinct paths none of whose segments starts with `..` |
| ModelProviders.NormalizeEnabledModelIds | api/crates/control-plane/src/model_provider.rs:1043-1054 | the loop computes the normalized ids |
| ModelProviders.NormalizedIdsExact | api/crates/control-plane/src/model_provider.rs:1043-1054 | they are exactly the trimmed non-blank ids |
| ModelProviders.NormalizedIdsDistinct | api/crates/control-plane/src/model_provider.rs:1043-1054 | none is repeated |
| ModelProviders.NormalizedIdsInOrder | api/crates/control-plane/src/model_provider.rs:1043-1054 | they are in order of first use |
| Strings.TrimKeeps | api/crates/control-plane/src/model_provider.rs:1047 | trimming takes white space from the two ends and nothing else |
| Strings.WhitespaceTable | api/crates/control-plane/src/model_provider.rs:1047 | white space is what Unicode lists as White_Space |
| ModelProviders.NormalizeConfiguredModels | api/crates/control-plane/src/model_provider.rs:1056-1085 | of given models exactly the first of each trimmed non-blank id is kept, in order, with everything but the id as it was; without models the normalized ids, each enabled and without an override |
| ModelProviders.FirstsKept | api/crates/control-plane/src/model_provider.rs:1070-1084 | the normalized models are those firsts: which positions they come from |
| ModelProviders.ModelsForDistinct | api/crates/control-plane/src/model_provider.rs:1056-1085 | either way the model ids are distinct and not blank |
| ModelProviders.EnabledIdsExact | api/crates/control-plane/src/model_provider.rs:1087-1095 | an id is enabled if and only if some configured model with that id is |
| ModelProviders.EnabledIdsInOrder | api/crates/control-plane/src/model_provider.rs:1087-1095 | the enabled ids are those of exactly the enabled models, in their order |
| ModelProviders.OfferedIsEnabled | api/crates/control-plane/src/model_provider.rs:1043-1095 | a model is enabled if and only if the input offers it: the first given model with its trimmed id is enabled or, without given models, a given id trims to it |
| ModelProviders.StepKeepsConsistent | api/crates/control-plane/src/model_provider.rs:604-717 | every write, also from a stale read, and every disabling leaves Ready with a non-empty and Draft with an empty, duplicate-free enabled list |
| ModelProviders.StepStores | api/crates/control-plane/src/model_provider.rs:439-717 | what each step stores: a create or enabled update the input, Ready exactly when it offers a model; a validation what was read as Ready, Draft or Invalid, and nothing over a disabled read; and nothing else changes |
| ModelProviders.RunConsistent | api/crates/control-plane/src/model_provider.rs:439-491 | so in every state of every interleaving of create, update, validate and disable |
| ModelProviders.RevivesExactly | api/crates/control-plane/src/model_provider.rs:471-479 | in every run a step brings a disabled instance back if and only if it writes over it from a read taken while the instance was not disabled; and then it was disabled in between |
| ModelProviders.StaleUpdateRevives | api/crates/control-plane/src/model_provider.rs:406-491 | such a run: an update that read before the disabling and writes after it |
| ModelProviders.NeverDisabledUnasked | api/crates/control-plane/src/state_transition.rs:3-53 | without a disabling step no stored or read record is ever disabled |
| ModelProviders.AcceptedIsEnabled | api/crates/control-plane/src/orchestration_runtime.rs:1308-1341 | in every reachable state the resolver accepts only models the instance enables |
| ModelProviders.InputAccepted | api/crates/control-plane/src/orchestration_runtime.rs:1308-1341 | after a create or enabled update the resolver accepts a model if and only if the instance is included, the provider and installation match and the input offers the model |
| ModelProviders.AcceptedWasOffered | api/crates/control-plane/src/orchestration_runtime.rs:1308-1341 | in every reachable state the resolver accepts a model only if an earlier create or update offered it and included the instance |
| ModelProviders.EmptyListAcceptsAny | api/crates/control-plane/src/orchestration_runtime.rs:1332-1341 | the resolver's own check would accept any model on an empty list, so it relies on that invariant |

## Left out

- SubDocument.Insert: does not model the mutable cursor that walks the tree; the tree is a value and the walk a recursion over the tokens, with the same containers created and the same error.
- SubDocument.CollectRefs and Redaction.CollectSecretStrings return the set the source fills through a mutable reference.
- ConfigScrub.ConfigScrubber.Scrub: does not state in which order values are stored; the order shows only when two pointers collide, which `PointersUnnested` excludes for slash-free paths.
- HeavyVerifyLock.LockHost.Acquire: is the loop without interference; with other processes acting between any two file-system calls the acquisition is the set of steps of one client, over which the run theorems are stated.
- HeavyVerifyLock.RunExclusive: takes a directory removal as one step and the owner record as always readable while the directory exists; partial recursive removals, hosts other than the local one and liveness checks refused by the system are not modelled.
- CleanArtifacts.DedupeNestedTargets: takes the order of the locale as a parameter and the shown text as determined by the path; `path.normalize` is not modelled.
- CleanArtifacts.SumTargetBytes: does not model targets reached through a link to a directory; a target that is a link is, and has size 0 when it dangles.
- StreamCoalescers.CoalesceBatch: does not model serialization of opaque events, which could fail, or delivery by the event bus.
- ProviderHosts.ProviderHost.LoadSource: takes loading as a function of what is at a canonical root; reading a package directory, and stored files changing during one call, are not modelled.
- ModelProviders.RunConsistent: takes create, update, validate and a disabling from outside as the only writers and leaves out deletion, secrets, catalog caches and audit records.
- OpenApiDocs.CloseScopedSpec: does not fix the order in which the worklist inserts, which shows in the components only when some pointer or needed scheme name is not plain.
- SelfContainment.SelfContainedExactly: is about plain pointers and scheme names; when some are not, a reference can still resolve because another was inserted in its place.
- DocsRegistry.BuildRegistry: leaves out the catalog, its labels and sorting, the checks of title and version, and the enrichment of the description before it.
- The effective security of operations in a category document: the union can become the default of an operation that had none.
- Redaction.RedactionIdempotent: is sufficient, not exact, for sets of several secrets.
- ConfigScrub.RemovedIsCollected: is sufficient, not exact: a string lost to a shared pointer may be collected from elsewhere.
- A flush of the held tail at the end of a text stream: the source has none.
- HTTP routes, process spawning, stdio runtimes, Docker and GitHub scripts, command-line parsing, report formatting, cryptography, permission and locale tables, and the other state-transition tables.
