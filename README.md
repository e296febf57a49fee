# joey-the-differ in Dafny

joey-the-differ compares two JSON-like values and returns a flat list of
change records `{ path, source, target, meta }`. `path` is the dot-joined key
path of the change, and `meta` is `{ op, reason }` or the meta a user differ
returned. A user can configure three things:

- **blacklist**: regular expressions for paths that are never reported;
- **preprocessors**: functions that rewrite a pair of values before they are
  compared;
- **differs**: functions that decide equality at a path themselves.

The repository ships two engines, and this project models both.

- `src/JoeyTheDiffer.js`, the current engine, is modelled as module `Engine`.
  The constructor merges the three configuration tables into one ordered
  registry of rules. The model writes each merge pass as a method with a loop
  over an insertion-ordered dictionary, proved against the declarative
  function `Registry`. The instance is a class with immutable fields. Its
  `diff` is a recursive function that finds the first matching rule at every
  path. It then:
  - returns nothing for an excluded path;
  - runs the preprocessor;
  - hands the node to the custom differ if there is one;
  - otherwise compares primitives, or compares containers key by key and then
    looks for keys only the target has.
- `src/index.js`, the older engine, is modelled as module `LegacyEngine`. It
  is pure: a `Config` datatype plus functions. Exclusion patterns and custom
  differs are kept in separate lists, the diff dispatches on the type of the
  source alone, and additions and deletions come from `comparePropertyExistence`.

Module `Js` holds the JavaScript vocabulary both engines share:

- the `Value` datatype: strings, numbers, booleans, `undefined`, `null`,
  objects as ordered entry lists, arrays, and `Other(tag)` for anything
  `getType` cannot classify;
- property lookup `v[key]` and `key in v`;
- `path.join`;
- `Array.prototype.find`;
- the shared `getType` classifier.

Modules `EngineProperties` and `LegacyProperties` state and prove what the two
engines promise.

Regular-expression matching is a parameter of each instance
(`regexTest(pattern, text)`, standing for `new RegExp(pattern).test(text)`).
Every property holds for any matcher, except the witness of the finding below
(`LegacyProperties.EmptyPatternDisablesBlacklist`), which fixes a matcher in
which the empty pattern matches every text.

## Model

| member | source | states |
|---|---|---|
| Js.GetType | src/JoeyTheDiffer.js:132-171 | classification succeeds exactly for the six supported kinds; primitive exactly when not an object or array; `object`, `array` and `undefined` names match their kinds; otherwise a TypeError carrying the `[object …]` tag and the path joined with commas |
| Js.SameTypeName | src/JoeyTheDiffer.js:132-171 | two classifiable values get the same type name exactly when they are of the same kind |
| Js.Join | src/JoeyTheDiffer.js:92 | the root path joins to the empty string; a one-key path joins to that key |
| Js.FindFirst | src/JoeyTheDiffer.js:93 | `find` returns the first index whose element satisfies the predicate, and nothing exactly when no element does |
| Js.Lookup | src/JoeyTheDiffer.js:24-32 | reading an entry table by key yields the first entry with that key, and nothing exactly when the key is absent |
| Js.Entries | src/JoeyTheDiffer.js:227 | `Object.entries`: an object's entries are its own key/value pairs in order; an array's are its indices, written in decimal, paired with its elements in order; a primitive has none |
| Js.Has | src/JoeyTheDiffer.js:240 | `key in v` holds exactly when the key is the key of one of `v`'s entries, or `v` is an array and the key is `length` (an array owns `length` without listing it among its entries) |
| Js.Get | src/JoeyTheDiffer.js:228 | `v[key]` is `undefined` for a key the value does not have; an array's `length` is present and reads as its number of elements |
| Js.GetEntry | src/JoeyTheDiffer.js:227-228 | every entry of a plain container is found again under its own key, so the source pass reads the target at exactly the source's keys |
| Engine.CollectBlacklist | src/JoeyTheDiffer.js:19-22 | the blacklist reduce yields one blacklisted entry per distinct pattern, in first-occurrence order |
| Engine.MergePreprocessors | src/JoeyTheDiffer.js:24-27 | a pattern already present keeps its place and its flag and gains the preprocessor; a new one is appended; the dictionary then agrees with the blacklist and the preprocessors table |
| Engine.MergeDiffers | src/JoeyTheDiffer.js:29-32 | the same for differs; the dictionary's key order becomes the deduplicated concatenation of blacklist, preprocessor keys and differ keys |
| Engine.JoeyTheDiffer.constructor | src/JoeyTheDiffer.js:13-43 | the registry equals `Registry(blacklist, preprocessors, differs)`; the option and the matcher are stored |
| Engine.JoeyTheDiffer.RuleFor | src/JoeyTheDiffer.js:91-95 | the rule is the first registry entry whose pattern matches, and there is none exactly when no pattern matches |
| Engine.CustomCompare | src/JoeyTheDiffer.js:105-123 | at most one record; none exactly when the differ, given the processed values, says equal; the record reports the values the node received and the user's meta; the processed pair is attached exactly when a preprocessor ran |
| Engine.ComparePrimitiveTypes | src/JoeyTheDiffer.js:180-218 | at most one record; none exactly when the processed values are equal; the record carries the received values and, exactly when a preprocessor ran, the processed pair; its op and reason follow the two (processed) type names: same name is `replace` "different <type>s", an undefined source `add` "value appeared" whatever the option, an undefined target `remove` "value disappeared", any other pair `replace` "type changed from … to …" |
| Engine.JoeyTheDiffer.FindProcessors | src/JoeyTheDiffer.js:91-95 | the rule for a path is the first registry entry whose pattern matches the dot-joined path, and there is none exactly when no pattern matches it |
| Engine.JoeyTheDiffer.Diff | src/JoeyTheDiffer.js:51-85 | no contract of its own; its properties are stated by EngineProperties.ExcludedPathIsSilent, CustomDifferOwnsNode, PrimitiveVerdicts, UnclassifiableFails, DiffLeaf, DiffPaths, DiffNeverReportsExcluded, DiffReflexive and NewTargetKey |
| Engine.JoeyTheDiffer.CompareObjects | src/JoeyTheDiffer.js:226-258 | no contract of its own; stated by EngineProperties.CompareObjectsPaths, CompareObjectsNeverReportsExcluded, CompareObjectsReflexive, TargetAddsMembers, TargetAddsAppend, NewTargetKey, ExampleStructuralOrder and ExampleNestedPath |
| Engine.JoeyTheDiffer.DiffEntries | src/JoeyTheDiffer.js:227-228 | no contract of its own; stated by EngineProperties.DiffEntriesPaths, DiffEntriesNeverReportsExcluded, DiffEntriesReflexive and ExampleSourcePass |
| Engine.JoeyTheDiffer.TargetAdds | src/JoeyTheDiffer.js:234-255 | at most one record per target entry, each an `add` "value appeared" of a defined target value with an `undefined` source and no preprocessor echo; EngineProperties.TargetAddsMembers says exactly which entries give one |
| EngineProperties.RegistryPatterns | src/JoeyTheDiffer.js:19-40 | each pattern appears in exactly one registry entry, and has an entry exactly when it is blacklisted or is a key of either table |
| EngineProperties.RegistryEntry | src/JoeyTheDiffer.js:19-40 | an entry is flagged exactly when its pattern is blacklisted, and carries exactly the preprocessor and the differ the tables give its pattern |
| EngineProperties.RegistryOrder | src/JoeyTheDiffer.js:19-40 | blacklisted patterns come first, then patterns with a preprocessor, then patterns that only the differs table names |
| EngineProperties.DedupDistinct | src/JoeyTheDiffer.js:34 | registry patterns are pairwise distinct, because they are the keys of one object |
| EngineProperties.DedupPrefix | src/JoeyTheDiffer.js:24-32 | merging more tables keeps the earlier patterns' order and only appends new patterns |
| EngineProperties.ExclusionWins | src/JoeyTheDiffer.js:19-40 | for a text matched by any blacklisted pattern, the first matching rule is an exclusion, whatever the preprocessors and differs tables hold |
| EngineProperties.ExcludedPathIsSilent | src/JoeyTheDiffer.js:51-56 | such a path produces no change, before any preprocessor or differ runs |
| EngineProperties.DiffNeverReportsExcluded | src/JoeyTheDiffer.js:51-85 | no record in a successful diff has a path whose rule is an exclusion: not at the node, not in a descendant, not from the target-only pass |
| EngineProperties.CompareObjectsNeverReportsExcluded | src/JoeyTheDiffer.js:226-258 | the same for the comparison of two containers |
| EngineProperties.DiffEntriesNeverReportsExcluded | src/JoeyTheDiffer.js:227-228 | the same for the source-key pass |
| EngineProperties.TargetAddsMembers | src/JoeyTheDiffer.js:234-255 | a target-only record is exactly an `add` for a target entry whose value is defined, whose key the source lacks and whose path is not excluded, reporting an `undefined` source |
| EngineProperties.TargetAddsAppend | src/JoeyTheDiffer.js:234-255 | the target-only pass over two runs of entries is the two passes one after the other |
| EngineProperties.TargetAddsNone | src/JoeyTheDiffer.js:238-244 | no `add` is reported when the source has every target key |
| EngineProperties.DiffPaths | src/JoeyTheDiffer.js:51-85 | every record of a successful diff at `path` is reported at the dot-joined form of `path` or of a longer path extending it |
| EngineProperties.CompareObjectsPaths | src/JoeyTheDiffer.js:226-258 | comparing two containers reports only at paths at least one key longer than theirs: the container itself never gets a record, so never a type change |
| EngineProperties.DiffEntriesPaths | src/JoeyTheDiffer.js:227-228 | the same for the source-key pass |
| EngineProperties.TargetAddsPaths | src/JoeyTheDiffer.js:234-255 | the same for the target-only pass |
| EngineProperties.LengthKeyAsymmetry | src/JoeyTheDiffer.js:226-245 | detection is not symmetric: with no rules and new target properties not allowed, `{length: 1}` against `[]` gives one `replace` "different numbers" at `length` (the array's `length` reads as 0), while `[]` against `{length: 1}` gives no record (the array has no entries, and `length` is in it) |
| EngineProperties.ExampleNestedPath | src/JoeyTheDiffer.js:226-258 | `{a:{b:1}}` against `{a:{b:2}}` with no rules gives one `replace` "different numbers" at `a.b` |
| EngineProperties.DiffLeaf | src/JoeyTheDiffer.js:51-82 | a node that does not descend reports only at its own path, and only when that path is not excluded |
| EngineProperties.PrimitiveLeaf | src/JoeyTheDiffer.js:72-82 | a node without a differ that does not descend reports at most one record, at its own path |
| EngineProperties.DiffReflexive | src/JoeyTheDiffer.js:51-85 | a plain value compared with itself produces no change, whatever the exclusions and the option, provided the differs find equal values equal and the preprocessors keep equal plain values equal |
| EngineProperties.LeafReflexive | src/JoeyTheDiffer.js:58-82 | the same at a node that does not descend |
| EngineProperties.CompareObjectsReflexive | src/JoeyTheDiffer.js:226-258 | a plain container compared key by key with itself produces no change |
| EngineProperties.DiffEntriesReflexive | src/JoeyTheDiffer.js:227-228 | the source-key pass finds nothing against a target holding the same values under the remaining keys |
| EngineProperties.NewTargetKey | src/JoeyTheDiffer.js:226-258 | adding one new defined key to a plain object yields exactly one `add`, carrying an `undefined` source, at the new path; it yields nothing when new target properties are allowed or the new path is excluded |
| EngineProperties.PrimitiveVerdicts | src/JoeyTheDiffer.js:180-218 | at a node no rule matches, with at least one primitive: equal values give nothing; otherwise one record whose op and reason follow the kinds (same kind: replace; undefined source: add, whatever the option; undefined target: remove; otherwise a replace naming both types) |
| EngineProperties.UnclassifiableFails | src/JoeyTheDiffer.js:72-73 | at a node no rule matches, an unclassifiable value throws the TypeError with its tag and the comma-joined path, whose message reads `Unknown type "[object <tag>]" at path "<path>"!`; the source is classified first |
| EngineProperties.CustomDifferOwnsNode | src/JoeyTheDiffer.js:62-70 | a custom differ's node never throws and never descends; it yields at most one record, none exactly when the differ says equal, and the record carries the received values, the user's meta and, when a preprocessor ran, the processed pair |
| EngineProperties.ExampleStructuralOrder | src/JoeyTheDiffer.js:226-258 | `{a:1,b:2}` against `{c:4,b:3}` with no rules gives: remove `a`, replace `b` ("different numbers"), add `c`, in that order |
| EngineProperties.ExampleSourcePass | src/JoeyTheDiffer.js:227-228 | in that example the source pass yields the removal of `a` and then the replacement of `b` |
| EngineProperties.ExampleTargetPass | src/JoeyTheDiffer.js:234-255 | in that example the target-only pass yields the addition of `c` |
| LegacyEngine.New | src/index.js:13-26 | the differs list has one entry per differs-table entry, in table order; the blacklist and the option are kept as given |
| LegacyEngine.IsBlacklistedAsWritten | src/index.js:73-77 | the check the engine uses: a path is excluded exactly when the first pattern that matches its dot-joined form is not the empty string |
| LegacyEngine.IsBlacklisted | src/index.js:73-77 | the intended check: a path is excluded exactly when some exclusion pattern matches its dot-joined form |
| LegacyEngine.FindCustomDiffer | src/index.js:83-90 | the differ of the first entry whose pattern matches, and none exactly when no pattern matches |
| LegacyEngine.CustomCompare | src/index.js:99-110 | at most one record; none exactly when the differ, given the raw values, says equal; the record carries the raw values and the differ's meta |
| LegacyEngine.ComparePrimitiveTypes | src/index.js:167-198 | equal values give nothing; unequal values throw exactly when the target is unclassifiable; a record carries both values, and its op is `update` exactly when both types have the same name, and `type-change` otherwise |
| LegacyEngine.ComparePropertyExistence | src/index.js:244-274 | a record exactly when the path is not excluded (by the check as written) and either a disappearance check meets an undefined target or an appearance check meets an undefined source; it carries both values and the matching delete or add meta |
| LegacyEngine.Diff | src/index.js:48-67 | no contract of its own; its properties are stated by LegacyProperties.ExclusionWins, EmptyPatternDisablesBlacklist, CustomDifferOnRawValues, PrimitiveSourceVerdicts, UnclassifiableSourceFails, DiffPaths, DeletionWithoutDescent, AdditionEvenWhenUndefined, LegacyReflexive and UndefinedMemberNotReflexive |
| LegacyEngine.CompareObjects | src/index.js:206-235 | no contract of its own; stated by LegacyProperties.CompareObjectsPaths, SourcePassDeletes, TargetPassMembers, TargetPassAppend, CompareObjectsReflexive and UndefinedMemberNotReflexive |
| LegacyEngine.SourcePass | src/index.js:207-219 | no contract of its own; stated by LegacyProperties.SourcePassDeletes, SourcePassPaths and SourcePassReflexive |
| LegacyEngine.TargetPass | src/index.js:225-232 | at most one record per target entry, each an `add` "value appeared" with an `undefined` source; LegacyProperties.TargetPassMembers says exactly which entries give one and TargetPassAppend that they come in target order |
| LegacyEngine.Compatible | src/index.js:206-218 | no contract of its own: the inputs on which the diff never compares a container source with a primitive target; LegacyProperties.CompatibleWithItself and LegacyEngine.CompatibleChild state its properties |
| LegacyEngine.MembersCompatible | src/index.js:206-218 | no contract of its own: the container case of `Compatible` |
| LegacyEngine.CompatibleChild | src/index.js:206-218 | every child the source pass reaches, or passes to the diff at an excluded path, is again a compatible input |
| LegacyProperties.EmptyPatternDisablesBlacklist | src/index.js:73-77 | with the blacklist `["", "secret"]`, the path `secret` is matched but, as written, not excluded, so `diff(1, 2)` there reports an `update` |
| LegacyProperties.BlacklistAsWrittenAgrees | src/index.js:73-77 | without an empty pattern, exclusion as written and as intended agree on every path |
| LegacyProperties.ExclusionWins | src/index.js:48-51 | when no exclusion pattern is empty, a path any pattern matches produces no change, even where a custom differ matches or a value is unclassifiable |
| LegacyProperties.CustomDifferOnRawValues | src/index.js:53-57 | a custom differ's node never throws and never descends; it yields nothing exactly when the differ, given the raw values, says equal, and otherwise one record with the raw values and the differ's meta |
| LegacyProperties.PrimitiveSourceVerdicts | src/index.js:59-64 | at a node without rules, a primitive source is never descended into: equal values give nothing; an unclassifiable target throws; otherwise one record, `update` for the same type name and `type-change` naming both types otherwise, never `add` or `delete` |
| LegacyProperties.LengthKeyAsymmetry | src/index.js:206-232 | the same asymmetry in the older engine: with no rules, `{length: 1}` against `[]` is compatible and gives one `update` "different numbers" at `length`, while `[]` against `{length: 1}` gives no record (the object's `length` is defined in the array, so no addition) |
| LegacyProperties.UnclassifiableSourceFails | src/index.js:59 | at a node without rules, an unclassifiable source throws the TypeError with its tag and the comma-joined path, whatever the target; its message reads `Unknown type "[object <tag>]" at path "<path>"!` |
| LegacyProperties.SourcePassDeletes | src/index.js:207-219 | in the source-key pass, a key whose target value is `undefined` contributes exactly one `delete` at the child path, carrying the source value, unless that path is excluded (then nothing); the source value is never diffed, so even an unclassifiable one throws nothing; the rest of the pass follows |
| LegacyProperties.TargetPassMembers | src/index.js:221-232 | a target-key record is exactly an `add` "value appeared" at the child path of a target entry whose source value is `undefined` and whose path is not excluded, carrying an `undefined` source and the target value, which may itself be `undefined` |
| LegacyProperties.TargetPassAppend | src/index.js:221-232 | the target-key pass over two runs of entries is the two passes one after the other, so additions follow target order |
| LegacyProperties.DiffPaths | src/index.js:48-67 | every record of a successful diff at `path` is reported at the dot-joined form of `path` or of a longer path extending it |
| LegacyProperties.CompareObjectsPaths | src/index.js:206-235 | comparing two containers reports only at paths at least one key longer than theirs |
| LegacyProperties.SourcePassPaths | src/index.js:207-219 | the same for the source-key pass |
| LegacyProperties.TargetPassPaths | src/index.js:221-232 | the same for the target-key pass |
| LegacyProperties.DeletionWithoutDescent | src/index.js:206-219 | for a one-key source against an empty object: one `delete` at the child path, for any source value, even `undefined` or unclassifiable |
| LegacyProperties.AdditionEvenWhenUndefined | src/index.js:221-234 | for an empty source against a one-key object: one `add` at the child path, even when the target value is `undefined`; nothing when new target properties are allowed or the path is excluded by the check as written |
| LegacyProperties.CompatibleWithItself | src/index.js:206-218 | comparing a plain value with itself never compares a container with a primitive |
| LegacyProperties.LegacyReflexive | src/index.js:48-67 | a plain value without `undefined` members, compared with itself, produces no change, provided the custom differs find equal values equal |
| LegacyProperties.CustomReflexive | src/index.js:53-57 | a node owned by a reflexive custom differ gives nothing for equal values |
| LegacyProperties.CompareObjectsReflexive | src/index.js:206-235 | a plain container without `undefined` members compared key by key with itself produces no change |
| LegacyProperties.SourcePassReflexive | src/index.js:207-219 | its source-key pass produces no change |
| LegacyProperties.TargetPassNone | src/index.js:225-232 | the target-key pass reports nothing when the source defines every key |
| LegacyProperties.UndefinedMemberNotReflexive | src/index.js:206-235 | `{x: undefined}` compared with itself gives a `delete` of `x` followed by an `add` of `x` |

## Left out

- Regular expressions: pattern matching is the parameter `regexTest`, and no property depends on what it matches. The one exception is the finding below, whose witness uses a matcher in which the empty pattern matches every text, as it does in JavaScript.
- Engine.JoeyTheDiffer.Diff: the constructor requires every preprocessor to return a source no larger than the one it was given (`Shrinks`). Without that, a preprocessor could make the recursion run forever, and the model's recursion would not terminate.
- LegacyEngine.Diff: requires that a container source is only compared, where the diff descends, with a container target (`Compatible`). In JavaScript, an object source against a primitive target reads properties of the primitive, and against `null` or `undefined` it throws a different TypeError. Neither is modelled.
- Engine.JoeyTheDiffer.constructor: the registry is kept in insertion order. `Object.entries(processors)` lists integer-like patterns such as `"0"` first, in numeric order, and the model does not reflect this.
- EngineProperties.RegistryOrder: holds only when no pattern is integer-like, for the reason just given.
- EngineProperties.ExclusionWins: holds only when no pattern is integer-like. A differ pattern `"0"` comes before a blacklisted `"secret"` in JavaScript, so the text `a0.secret` is given to that differ.
- EngineProperties.ExcludedPathIsSilent: holds only when no pattern is integer-like, for the same reason.
- LegacyProperties.ExclusionWins: stated for blacklists without an empty pattern. With one, the check as written applies, as the finding below shows.
- Symmetry of detection: neither engine reports a difference in both directions in general. Objects and arrays share keys: an array answers `length` and its decimal indices, so an object holding such keys compared with an array can differ in one direction and agree in the other. EngineProperties.LengthKeyAsymmetry and LegacyProperties.LengthKeyAsymmetry exhibit one such pair. The model reproduces this behaviour and proves no symmetry property.
- Key order and the prototype chain: objects are ordered entry lists, iterated in the order given. JavaScript lists integer-like keys first, and `key in source` also sees inherited properties. Neither is modelled.
- Numbers are mathematical integers: doubles, `NaN`, `-0` and the corresponding `===` cases are not modelled. Strict equality `===` is evaluated only where at least one side is a primitive, where it is value equality, so reference equality of containers never arises.
- In-place mutation of a custom differ's `meta` (adding the `preprocessor` echo) is modelled as a field of the record. A differ returning a non-object meta together with a preprocessor, which throws in JavaScript, is not modelled.
- `diffFiles`, the files differs (`src/FilesDiffer.js`, `src/JoeyTheFilesDiffer.js`), the command-line interface, the demo and all file and console I/O are not part of this model.
- The options `returnPathAsAnArray`, `extendedTypesDiffer` and `primitiveEquality`, which the code does not implement, are not modelled.
- The callbacks users pass (preprocessors, differs) are arbitrary functions of the values; their bodies are not modelled. Properties about them are stated for any callback or, for reflexivity, for callbacks that respect equality.
- `lodash.flattendeep`: both engines flatten record lists nested to any depth (each level of `compareObjects` wraps its children's lists in another array). A record is an object, never an array, so flattening the nested lists yields the records in order, which the model writes as sequence concatenation.
- One isbn test expectation in the legacy engine's tests disagrees with the code; the model follows the code.

## Findings

The model of the older engine follows the code: its diff uses `LegacyEngine.IsBlacklistedAsWritten`. The intended check is `LegacyEngine.IsBlacklisted`, and `LegacyProperties.BlacklistAsWrittenAgrees` proves that the two agree on every path when no pattern is empty.

| source | as written | input that shows it | evidently intended | confidence | as-written member | corrected member |
|---|---|---|---|---|---|---|
| src/index.js:73-77 | `isBlacklisted` returns `Boolean(found)` of the first matching pattern, so a matching empty pattern `""` counts as no exclusion and hides every later pattern | blacklist `["", "secret"]`, path `["secret"]`: both patterns match, yet the path is diffed | a path is excluded when any pattern matches it | not executed | LegacyProperties.EmptyPatternDisablesBlacklist | LegacyEngine.IsBlacklisted |
