# workflow_guardian decision engine in Dafny

workflow_guardian drives work items (entities) through the states of a
specification document. A transition between two states is guarded by a gate.
The gate combines a human-approval policy with rules such as "the entity's
checklist is at least N% complete". This project models the deterministic core
that makes that decision:

- the completeness engine (`CompletenessEngine.compute`);
- the gate engine (`GateEngine.evaluate` and `_human_required`);
- the identity validator (`IdentityValidator.validate`);
- the transition resolver (`resolve_transition`);
- the specification data model;
- two text utilities of the patch pipeline:
  - the patch sanitiser and its basic shape check (`sanitize_patch_output`, `validate_basic`);
  - the pure steps of the deterministic diff builder: evidence-key path
    extraction, the target filter, newline normalisation and the final patch
    text.

Modules, one per source file, plus three support modules:

| module | file | source |
|---|---|---|
| `Wrappers` | wrappers.dfy | `Option`, `Result`, `Outcome` (error modelling) |
| `Text` | text.dfy | the Python `str` operations used: `strip`, `find`, `splitlines`, `"\n".join`, `str(int)` |
| `StringOrder` | string_order.dfy | Python's `<` on `str` and `sorted(set(...))` |
| `Models` | models.dfy | app/models.py |
| `Completeness` | completeness.dfy | app/engine/completeness.py |
| `Gates` | gates.dfy | app/engine/gates.py |
| `Identity` | identity.dfy | app/engine/identity.py |
| `StateMachine` | state_machine.dfy | app/engine/state_machine.py |
| `PatchTools` | patch_tools.dfy | app/runtime/patch_tools.py |
| `DiffBuilder` | diff_builder.dfy | app/agents/diff_builder_v1.py (lines 12-27, 150-161, 189-196, 220-222) |

The style follows the source, one file at a time:

- Code that loops and appends is modelled as a method with a loop:
  - `compute` (`Completeness.Compute`), the rule loop of `evaluate`
    (`Gates.CheckRules`, used by `Gates.Evaluate`) and the fence-line loop of
    `sanitize_patch_output` (`PatchTools.SanitizePatchOutput`) are each proved
    equal to a pure specification function (`Expected`, `Decide`,
    `Sanitized`), and those functions are then reasoned about in lemmas;
  - the two evidence-path helpers (`DiffBuilder.AllowedPaths`,
    `DiffBuilder.ProposedPaths`) are characterised by which paths they contain
    and by strict sorting, which fixes the result
    (`StringOrder.StrictlySortedUnique`).
- Three methods have no loop. They model statement sequences that sit inside
  code with effects, and each is tied to pure functions:
  - `Gates.CheckRule` is one iteration of the rule loop;
  - `DiffBuilder.PlanTargets` is lines 150-157 of `run`;
  - `DiffBuilder.NormalizePair` is lines 189-196 of `run`.
- The rest is pure functions, because the source there is conditionals,
  comprehensions and first-match scans.

A Python exception becomes the `Err` or `Fail` case of a result:

- the patch-tool and diff-builder errors carry the exception's message text;
- the identity and transition errors carry the data that message is built
  from (entity type and identifier; the states involved; the missing key).
  `Identity.Message` renders the identity error's text.

Where the source depends on something outside the core, the model handles it
as follows:

- Regular-expression full matching is a function parameter `fullmatch(pattern, text)`.
- Python whitespace is the ASCII subset of `str.isspace`.
- `splitlines` is modelled with "\n" as its only separator.

## Model

| member | source | states |
|---|---|---|
| Completeness.Compute | app/engine/completeness.py:27-63 | The loop's result is the specification `Expected`: for an empty checklist, 0/0/100% with nothing missing; otherwise the count of satisfied positions, the truncated percent and the unsatisfied items in checklist order |
| Completeness.ExpectedProperties | app/engine/completeness.py:32-63 | An empty checklist gives total 0, satisfied 0, percent 100 and no missing items. The total is the checklist length, duplicates included. satisfied + missing == total. percent == satisfied*100 div total, within 0..100. For a non-empty checklist, percent is 100 exactly when nothing is missing. An item is missing exactly when it is on the checklist and not satisfied |
| Completeness.CountsAddUp | app/engine/completeness.py:44-53 | Every checklist position is counted as satisfied or listed as missing, never both |
| Completeness.MissingMembers | app/engine/completeness.py:47-53 | An item is in the missing list iff it is on the checklist and its value is falsy or absent |
| Completeness.PercentBounds | app/engine/completeness.py:56 | A truncated percent of s out of t (s <= t) is in 0..100, and is 100 exactly when s == t |
| Completeness.AbsentIsFalse | app/engine/completeness.py:49 | Removing a key from the data has the same effect as mapping it to False |
| Gates.HumanRequired | app/engine/gates.py:69-78 | A boolean policy is used as it is. "medium_or_high" requires approval iff the tier is "medium" or "high". Any other string requires approval. Approval is not required exactly for False, or for "medium_or_high" on another tier |
| Gates.JudgeSpec | app/engine/gates.py:51-65 | For one rule: it computes completeness iff its stripped type is completeness_min and it has a percent. It adds no reason iff it is such a rule and the percent reaches the threshold. Otherwise the reason is the unsupported-type, missing-percent or below-required message |
| Gates.CheckRule | app/engine/gates.py:52-65 | One iteration of the rule loop: it yields that rule's reason and, only for a completeness rule with a percent, the completeness result of the checklist and data |
| Gates.CheckRules | app/engine/gates.py:51-65 | The rule loop yields the rules' reasons in rule order, and the completeness result of the last rule that computed one |
| Gates.Evaluate | app/engine/gates.py:32-67 | The decision is `Decide`: the approval reason (if any) followed by the rule reasons. allowed holds iff there are no reasons. There are at most len(rules)+1 reasons |
| Gates.ApprovalReasonIff | app/engine/gates.py:45-48 | The approval reason appears iff approval is required and not given, and then it is the first reason |
| Gates.AllowedIff | app/engine/gates.py:32-67 | A transition is allowed iff approval is not missing and every rule is a completeness rule with a percent the data reaches |
| Gates.BelowRequiredIff | app/engine/gates.py:59-63 | A "below required" reason appears iff some completeness rule with a percent has a threshold strictly above the computed percent |
| Gates.ReportedCompleteness | app/engine/gates.py:43-67 | The reported completeness is the checklist's result if some completeness rule with a percent ran, and none otherwise |
| Gates.UnsupportedBlocks | app/engine/gates.py:64-65 | A rule whose stripped type is not completeness_min blocks the transition with "Unsupported rule type: <type>" |
| Gates.MissingPercentBlocks | app/engine/gates.py:55-57 | A completeness_min rule without a percent blocks with the missing-percent reason and computes nothing |
| Gates.ReasonCountBound | app/engine/gates.py:42-65 | At most one reason per rule, plus the approval reason |
| Gates.LowTierNeedsNoApproval | app/engine/gates.py:74-75 | The "medium_or_high" policy on tier "low", with no rules and no approval, allows the transition |
| Identity.NewValidator | app/engine/identity.py:26-28 | An absent legacy list stands for no legacy patterns |
| Identity.FirstLegacyMatch | app/engine/identity.py:39-40 | The first legacy pattern that fully matches, or none exactly when no legacy pattern matches |
| Identity.Validate | app/engine/identity.py:30-51 | A canonical match gives canonical_id == id and is_legacy == false, whatever the legacy patterns are. Otherwise a legacy match gives is_legacy == true with no canonical id. Otherwise the result is the IdentityError for that entity type and id. Every success echoes entity_type and raw_id, and is_legacy holds iff canonical_id is None |
| Identity.MessageIdentifiesId | app/engine/identity.py:49-51 | For one entity type, two rejection messages are equal exactly when they reject the same identifier, so the message names the identifier |
| Identity.LegacyOrderIrrelevant | app/engine/identity.py:39-47 | Which legacy pattern matches, and the order of the patterns, do not change the outcome |
| Identity.CanonicalIff | app/engine/identity.py:31-47 | A success is not legacy iff the canonical pattern matches |
| Identity.RejectedIff | app/engine/identity.py:31-51 | Validation fails iff neither the canonical pattern nor any legacy pattern matches |
| StateMachine.Scan | app/engine/state_machine.py:27-34 | A successful scan returns the requested states and the gate of an entry that links them |
| StateMachine.Resolve | app/engine/state_machine.py:19-34 | An unknown from_state is rejected first, then an unknown to_state. A success implies both states are known and the gate comes from an entry that links them |
| StateMachine.ScanFirstMatch | app/engine/state_machine.py:27-32 | The scan stops at the first linking entry, whatever follows it |
| StateMachine.ResolveFirstMatch | app/engine/state_machine.py:27-32 | For known states, the resolved gate is that of the first linking entry; later duplicates are ignored |
| StateMachine.ResolveNotAllowed | app/engine/state_machine.py:27-34 | For known states and well-formed entries, none of which links them, the result is "Transition not allowed" |
| StateMachine.ResolveTyped | app/engine/state_machine.py:27-32 | Transitions written as typed records resolve to the first matching record's gate, with its rules unchanged and in order |
| Models.NewIdSpec | app/models.py:6-9 | legacy_regexes and examples default to empty |
| Models.NewGateRule | app/models.py:11-13 | percent defaults to None |
| Models.NewGateSpec | app/models.py:15-17 | rules defaults to empty |
| Models.EntryOf | app/models.py:19-28 | A typed transition's mapping form has exactly the keys from_state, to_state and gate, holding its fields |
| PatchTools.SanitizePatchOutput | app/runtime/patch_tools.py:6-26 | The loop and the slicing compute `Sanitized`: strip, drop fence lines, re-join and strip, fail if there is no diff header, otherwise keep from the first header, strip, and end with "\n" |
| PatchTools.ValidateBasic | app/runtime/patch_tools.py:29-35 | Accepts iff the patch starts with "diff --git ", lacks the prose marker, and contains both "\n--- " and "\n+++ ". Each of the three checks, in order, fails with its own message: not a diff, prose, missing markers |
| PatchTools.FenceFreeHasNoFence | app/runtime/patch_tools.py:10-15 | After fence lines are dropped and the text is re-joined and stripped, no line of it is a fence line |
| PatchTools.SanitizedFailsIff | app/runtime/patch_tools.py:17-20 | The sanitiser fails iff the fence-free text has no "diff --git ", and then with the no-diff message |
| PatchTools.SanitizedBody | app/runtime/patch_tools.py:15-25 | The output is the fence-free text from its first header on, plus "\n". That part starts with the header, ends in a visible character and has no fence line |
| PatchTools.SanitizeClean | app/runtime/patch_tools.py:7-26 | A clean body plus "\n" is returned unchanged |
| PatchTools.SanitizedShape | app/runtime/patch_tools.py:15-26 | The output starts with "diff --git ", ends with "\n" and has no fence line |
| PatchTools.SanitizeIdempotent | app/runtime/patch_tools.py:7-26 | Sanitising a sanitised patch returns it unchanged |
| PatchTools.SanitizedStartsLikeADiff | app/runtime/patch_tools.py:18-30 | A sanitised patch never fails the first check of validate_basic |
| Text.StripFacts | app/runtime/patch_tools.py:7 | strip keeps a slice with all-whitespace margins and no whitespace at either end |
| Text.StripEmptyIff | app/agents/diff_builder_v1.py:221 | A text strips to nothing iff it is all whitespace |
| Text.IndexOf | app/runtime/patch_tools.py:18 | find gives -1 iff the pattern does not occur, and otherwise its first occurrence |
| Text.SplitLines | app/runtime/patch_tools.py:11 | Lines hold no "\n"; only the empty text has no lines |
| Text.JoinSplitLines | app/runtime/patch_tools.py:11-15 | Joining the lines of a text that does not end in "\n" gives the text back |
| Text.IntToString | app/engine/gates.py:62 | The rendering starts with '-' iff the number is negative; what follows (the whole text for a non-negative number) is a non-empty run of decimal digits without a leading zero whose value is the magnitude |
| Text.NatToString | app/engine/gates.py:62 | A natural number is rendered as a non-empty string of decimal digits whose value is the number, one digit exactly below 10, and with no leading zero (it starts with '0' only for 0 itself) |
| Text.IntToStringInjective | app/engine/gates.py:62 | Different numbers are rendered differently |
| StringOrder.SortedUnique | app/agents/diff_builder_v1.py:18 | sorted(set(xs)) holds exactly the elements of xs |
| StringOrder.SortedUniqueSorted | app/agents/diff_builder_v1.py:18 | sorted(set(xs)) is strictly increasing, so it has no duplicates |
| StringOrder.StrictlySortedUnique | app/agents/diff_builder_v1.py:18 | Two strictly sorted lists with the same elements are equal |
| StringOrder.SortedUniqueOrderIrrelevant | app/agents/diff_builder_v1.py:18 | sorted(set(xs)) depends only on which elements xs holds, so dictionary key order does not matter |
| DiffBuilder.FileKeyRoundTrip | app/agents/diff_builder_v1.py:16-17 | "files/"+p+".txt" is a file key whose path is p, and every file key is rebuilt from its path |
| DiffBuilder.ProposedKeyRoundTrip | app/agents/diff_builder_v1.py:25-26 | "proposed/"+p yields p, and every proposed key is rebuilt from its path |
| DiffBuilder.AllowedPaths | app/agents/diff_builder_v1.py:12-18 | p is allowed iff "files/"+p+".txt" is an evidence key, and the list is strictly sorted |
| DiffBuilder.ProposedPaths | app/agents/diff_builder_v1.py:21-27 | p is proposed iff "proposed/"+p is an evidence key, and the list is strictly sorted |
| DiffBuilder.Targets | app/agents/diff_builder_v1.py:157 | The targets are exactly the proposed paths that are also allowed, and there are no more of them than proposed paths |
| DiffBuilder.TargetsSorted | app/agents/diff_builder_v1.py:157 | Filtering keeps the proposed order, so the targets are strictly sorted |
| DiffBuilder.PlanTargets | app/agents/diff_builder_v1.py:150-157 | Fails with the no-allowed-paths message iff the evidence has no file key. Otherwise p is a target iff both "files/"+p+".txt" and "proposed/"+p are keys, and the targets are strictly sorted |
| DiffBuilder.EndWithNewlineFacts | app/agents/diff_builder_v1.py:190-193 | Empty text stays empty. A non-empty text ends with "\n" afterwards. A text already ending with "\n" is unchanged. At most one "\n" is added, and normalising twice changes nothing more |
| DiffBuilder.SameAfterNormalising | app/agents/diff_builder_v1.py:190-196 | Two texts normalise alike iff they are equal, or one is the other, non-empty and lacking a final "\n", plus "\n" |
| DiffBuilder.NormalizePair | app/agents/diff_builder_v1.py:189-196 | Both texts are normalised, and a diff is made iff they still differ |
| DiffBuilder.PatchTextShape | app/agents/diff_builder_v1.py:220-222 | No targets, or parts that are only whitespace, give exactly "(no changes)\n". Otherwise the text is the stripped concatenation plus "\n". It always ends with "\n" |
| DiffBuilder.PatchTextTrimmed | app/agents/diff_builder_v1.py:220 | A real patch text starts and ends its content with a visible character, followed by exactly one "\n" |

## Left out

- I/O and the wider pipeline are not part of this model. This covers the diff
  builder's artifact-root probing and disk reads (app/agents/diff_builder_v1.py
  lines 30-132 and 163-187), the check for a `.git` directory, and the
  `changes.patch` write. It also covers spec_loader, store, audit, the review
  archive, the orchestrator, the agents and the CLI (app/main.py).
- The diff builder's `difflib.unified_diff` call and the per-file headers are
  not part of this model, because difflib is a foreign library. `PatchText`
  takes the parts that loop builds as a parameter.
- The diff builder's fail-fast check on a `[missing evidence:` proposal (lines
  178-183) is not modelled: the proposed text is then read from disk.
- Identity.Validate: regular expressions are not interpreted, and `re.compile`
  errors in the constructor are not modelled. `fullmatch` is a parameter.
- Python's `str.isspace` is modelled only on ASCII characters, and
  `splitlines` only on "\n". Other Unicode whitespace and other line
  separators ("\r", "\r\n", "\x0b", "\x1c", ...) are not modelled.
- Completeness.Truthy: entity-data values are limited to bool, int, string and
  null. Float, list and dict truthiness are not modelled.
- StateMachine.Resolve: pydantic's validation of the gate mapping is reduced to
  a `Gate` value. Its reconversion of rule objects (line 31) is the identity on
  already-typed rules. Any other value gives `InvalidGate`.
- `TransitionError` messages for unknown states and for disallowed transitions
  are not modelled as strings. The error is a variant carrying the same data.
  The same applies to `KeyError` on an entry without "from_state"/"to_state"/"gate".
- Two tests disagree with the code, and the model follows the code:
  - tests/test_gates.py:58-73 expects "Rule always_block triggered.", but
    `evaluate` reports "Unsupported rule type: always_block".
  - tests/test_spec_canonical.py expects typed transitions with a
    `.transition` field, but transitions are plain mappings and
    `ResolvedTransition` holds from_state, to_state and gate.
- Evidence values other than strings are not modelled. Only the keys decide the
  paths.
