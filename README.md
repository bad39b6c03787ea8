# semantic-mod: candidate bookkeeping, permutation selection and rewriting

semantic-mod is a Clang-based source-to-source tool. It produces many
semantically equivalent versions of a C program by reordering function
parameters, struct fields or switch cases. Each kind of reordering runs
in two phases.

- **Analysis.** AST visitors register eligible *candidates* in a registry
  keyed by an identity (`FunctionUnique`, `StructUnique`, `SwitchUnique`).
  They invalidate a candidate when some use makes reordering unsafe. A
  function is unsafe to reorder when its address is assigned, when it is called from a
  macro, or when it is called with a side-effecting argument. A struct is unsafe when
  an instance is stored globally or initialised with an initializer list.
- **Selection.** `fpreordering` collects the valid candidates, computes a
  histogram and the number of possible reorderings, and clamps the number
  of versions requested to that number. It then draws random
  non-identity, non-duplicate orderings.
- **Rewriting.** For each version, slot `i` of the target's declaration,
  definition and call sites receives item `ordering[i]`.
- **Flush.** At the end of every source file the modified buffers are
  written under `outputPrefix + "v" + version`, keeping each file's path
  relative to the base directory.

This project models that bookkeeping in Dafny, with every Clang query
turned into an attribute of a small AST (`Ast`).

| module | file | models |
|---|---|---|
| `Common` | common.dfy | `Option`, `Result`, the 64-bit `size_t`/`unsigned long` moduli, `std::min` |
| `Strings` | strings.dfy | `std::string` `operator<`, `find`, `find_last_of`, decimal formatting |
| `Permutations` | permutations.dfy | orderings, permutations, inverse, the list of all `n!` permutations |
| `Ast` | ast.dfy | declarations, calls, assignments, types and source ranges |
| `Candidates` | candidates.dfy | the payload (`FunctionData`/`StructData`) and the `MapVector` registry |
| `Rewriting` | rewriter.dfy | Clang's `Rewriter` as a log of `ReplaceText` calls; slot substitution |
| `FunctionReordering` | function_reordering.dfy | `FunctionUnique`, the function analyser, the parameter rewriter |
| `FPSelection` | fp_selection.dfy | the `fpreordering` driver: candidates, histogram, clamp, accept loop |
| `StructReordering` | struct_reordering.dfy | `StructUnique`, the struct analyser and walk, the field rewriter |
| `SwitchReordering` | switch_reordering.dfy | `SwitchUnique`, `SwitchData`, switch invalidation |
| `SemanticUtil` | semantic_util.dfy | `factorial`, `random_0_to_n`, `generate_random_ordering`, `writeJSONToFile` paths |
| `OutputPaths` | output_paths.dfy | version directory, relative paths, subdirectories, the end-of-file flush |
| `SemanticData` | semantic_data.dfy | the older `SWCReordering` scratch maps and rewritten set |
| `SemanticAnalyser` | semantic_analyser.dfy | the older, name-keyed struct pass with its position-search rewriter |

### How the model is organised

- **The registry.** It is a class (`Candidates.Registry`) holding the
  identities in insertion order and one heap-allocated `Data` payload per
  identity. `Entries()` gives its value view.
- **Analysis updates.** Every update an analyser makes is an `Op`: an
  invalidation or a fill. A visitor method is proved to leave the registry at
  `Run(old entries, Key, ops)` for the ops its node produces. The properties
  of a whole analysis are then lemmas about `Run`:
  - invalidation is monotone;
  - items are filled once;
  - a candidate is valid exactly when some eligible definition registers it
    and no use invalidates it.
- **Randomness.** It is a finite stream of draws. Running out of the stream,
  or drawing an index past the end of the candidate list, is reported
  through a status.
- **File output.** It is a `Flush` value: the directories created, the files
  written as (output path, buffer) pairs, and how the flush ended.
- **Revisions.** The files come from different revisions of the tool.
  - FunctionRewriting.cpp/.h and StructRewriting.h are a later copy of the
    same analysers, payloads and rewriters as FPReordering.cpp/.h and
    StructReordering.h. The same members model both; the rows below cite the
    earlier copy.
  - SemanticAnalyser.cpp and SemanticData.h/.cpp are an older,
    name-keyed design, and are modelled separately.

## Model

| member | source | states |
|---|---|---|
| Common.Min | FPReordering.cpp:208 | `std::min`: the result is at most both arguments and is one of them |
| Strings.LexLessIrreflexive | FPReordering.h:55 | no string is `<` itself |
| Strings.LexLessAsymmetric | FPReordering.h:55 | `a < b` excludes `b < a` |
| Strings.LexLessTransitive | FPReordering.h:55 | `<` on strings is transitive |
| Strings.LexLessTotal | FPReordering.h:55 | two different strings are ordered one way or the other |
| Strings.LexEquivalentIffEqual | FPReordering.h:55 | strings neither of which is `<` the other are equal, and conversely |
| Strings.FindFrom | FPReordering.cpp:32 | `find`: the first occurrence at or after `from`, or none at all |
| Strings.ContainsWitness | FPReordering.cpp:32 | any occurrence makes `find != npos` |
| Strings.FindPosition | Semantic.cpp:76 | `find` as a `size_t`: the first position where the pattern occurs, and `npos` exactly when it does not occur (for strings shorter than `npos`) |
| Strings.FindLastOf | Semantic.cpp:80 | `find_last_of`: a separator with no separator after it, or none at all |
| Strings.DigitChar | Semantic.cpp:54 | a decimal digit is a digit character |
| Strings.NatToString | Semantic.cpp:54 | `operator<<` on a number gives a non-empty string of digits |
| Strings.DigitCharValue | Semantic.cpp:54 | a digit character reads back as its value |
| Strings.NatToStringRoundTrip | Semantic.cpp:54 | reading the decimal text of `n` gives back `n` |
| Strings.NatToStringInjective | Semantic.cpp:54 | different numbers have different decimal texts |
| Strings.NoColonNotJoined | FPReordering.h:52-53 | a name without `:` is never a `name:fileName` key |
| Strings.NoColonJoinInjective | FPReordering.h:52-53 | for names without `:`, equal `name:fileName` keys have equal names and files |
| Permutations.PermutationIsOrderingFor | FPReordering.h:82-85 | a permutation of `n` indexes every one of the `n` slots |
| Permutations.Identity | FPReordering.cpp:217-218 | `iota` gives the ordering `0..n-1`, of length `n` |
| Permutations.IdentityIsPermutation | FPReordering.cpp:217-218 | the identity ordering is a permutation |
| Permutations.Apply | FPReordering.h:84-85 | slot `i` of the result holds item `ordering[i]`; one slot per ordering entry |
| Permutations.ApplyIdentity | FPReordering.cpp:224 | the identity ordering leaves a list unchanged |
| Permutations.ApplyPreservesPermutation | FPReordering.cpp:229 | shuffling a permutation yields a permutation |
| Permutations.ImageSize | FPReordering.cpp:229 | the first `k` entries of a duplicate-free ordering are `k` different values |
| Permutations.SubsetSize | FPReordering.cpp:229 | a subset is no larger than its superset |
| Permutations.SubsetOfEqualSize | FPReordering.cpp:229 | a subset as large as its superset is the superset |
| Permutations.PermutationSurjective | FPReordering.cpp:229 | every index below `n` occurs in a permutation of `n` |
| Permutations.IndexOf | FPReordering.cpp:229 | the first position holding a value |
| Permutations.Inverse | FPReordering.cpp:251 | the inverse ordering has the same length |
| Permutations.InverseIsPermutation | FPReordering.cpp:251 | the inverse is a permutation and undoes the ordering on both sides |
| Permutations.ApplyInverseRoundTrip | FPReordering.cpp:251 | applying the ordering and then its inverse restores the list |
| Permutations.InverseApplyRoundTrip | FPReordering.cpp:251 | applying the inverse and then the ordering restores the list |
| Permutations.SmallPermutationIsIdentity | SemanticUtil.cpp:42-44 | below two items the only permutation is the identity |
| Permutations.TwoItemPermutations | SemanticUtil.cpp:42-44 | two items have exactly the orderings `[0, 1]` and `[1, 0]` |
| Permutations.Insert | FPReordering.cpp:178 | inserting at `j` shifts the later entries by one |
| Permutations.Remove | FPReordering.cpp:178 | removing at `j` shifts the later entries back by one |
| Permutations.InsertAll | FPReordering.cpp:178 | all `|p| + 1` insertions of `v` into `p`, in position order |
| Permutations.InsertIsPermutation | FPReordering.cpp:178 | inserting `m` into a permutation of `m` gives a permutation of `m + 1` |
| Permutations.RemoveIsPermutation | FPReordering.cpp:178 | removing `m` from a permutation of `m + 1` gives a permutation of `m`, and inserting it back restores it |
| Permutations.InsertEachMember | FPReordering.cpp:178 | the insertion list holds exactly the insertions of `v` into the listed orderings |
| Permutations.InsertEachPermutations | FPReordering.cpp:178 | insertions into permutations of `m` are permutations of `m + 1` |
| Permutations.PermsArePermutations | FPReordering.cpp:178 | every listed ordering of `n` is a permutation of `n` |
| Permutations.PermsComplete | FPReordering.cpp:178 | every permutation of `n` is listed |
| Permutations.InsertAtDifferentPositions | FPReordering.cpp:178 | a fresh value inserted at two places gives two orderings |
| Permutations.InsertIntoDifferent | FPReordering.cpp:178 | a fresh value inserted into two different orderings gives two orderings |
| Permutations.InsertEachDistinct | FPReordering.cpp:178 | insertions into distinct orderings are all distinct |
| Permutations.PermsDistinct | FPReordering.cpp:178 | no permutation is listed twice |
| Permutations.InsertEachLength | FPReordering.cpp:178 | each of `|ps|` orderings of length `m` gives `m + 1` insertions |
| Permutations.PermsLength | FPReordering.cpp:178 | there are `n` times as many permutations of `n` as of `n - 1` |
| Permutations.Without | FPReordering.cpp:228-230 | removing `x` keeps exactly the other elements |
| Permutations.WithoutDistinct | FPReordering.cpp:228-230 | removing a present element from a distinct list shortens it by exactly one |
| Permutations.WithoutShorter | FPReordering.cpp:228-230 | removing a present element shortens the list |
| Permutations.DistinctWithin | FPReordering.cpp:233-239 | a distinct list drawn from `ys` is no longer than `ys` |
| Permutations.DistinctConcat | FPReordering.cpp:233-239 | two distinct lists with no common element concatenate to a distinct list |
| Ast.IgnoreParenCasts | FPReordering.cpp:22 | the stripped expression is neither a parenthesis nor a cast, and an expression that is neither is returned unchanged |
| Ast.IgnoreParenCastsUnwraps | FPReordering.cpp:22 | any parentheses and casts around an unwrapped expression are stripped back to that expression |
| Ast.IgnoreParenCastsDecomposes | FPReordering.cpp:22 | every expression is its stripped form inside exactly the layers that were stripped |
| Candidates.ItemsJSONReorders | FPReordering.h:82-93 | `getJSON(ordering)` has one entry per item, entry `i` at position `i` with item `ordering[i]` |
| Candidates.ItemsJSONOriginal | FPReordering.cpp:217-224 | with the identity ordering the report lists the recorded items unchanged |
| Candidates.ItemsJSONRoundTrip | FPReordering.cpp:251 | the modified report together with its ordering determines the original list |
| Candidates.Data.constructor | FPReordering.h:71 | a new payload has the given validity and no items; the registry's create-on-read path passes `true` |
| Candidates.Data.AddItems | FPReordering.h:72-78 | `addParams`/`addFields` append the declared items in order and leave `valid` alone |
| Candidates.Data.GetJSON | FPReordering.h:82-93 | the loop builds exactly `ItemsJSON(items, ordering)` |
| Candidates.KeyIndex | FPReordering.h:113 | the entry whose key string matches, or none if no key matches |
| Candidates.GetOrCreate | FPReordering.h:116 | after `candidates[k]` an entry for `k` exists |
| Candidates.GetOrCreateAppends | FPReordering.h:116 | a present key changes nothing; an absent key gets a valid, empty entry at the end; keys stay unique |
| Candidates.InvalidatedSpec | FPReordering.h:114-118 | after `invalidateCandidate(k)` the entry for `k` exists and is invalid, and no other entry changes |
| Candidates.FilledSpec | FPReordering.cpp:90-95 | the entry is created if absent; items are written only while it is valid and empty; other entries do not change |
| Candidates.KeyIndexUnique | FPReordering.h:113 | under unique keys, the entry whose key matches is the one found |
| Candidates.StepSpec | FPReordering.h:113-118 | an update keeps keys unique and only moves entries forward (appends; valid to invalid; empty to filled) |
| Candidates.RunEvolves | FPReordering.h:114-118 | over any analysis, entries keep their identity, invalid never becomes valid, and filled items never change |
| Candidates.EvolvesTransitive | FPReordering.h:114-118 | moving entries forward twice is moving them forward |
| Candidates.StepEntryOf | FPReordering.h:113 | an update changes the entry of its own key and no other |
| Candidates.RunEntryOf | FPReordering.h:113 | a key's entry depends only on the updates to that key, in their order |
| Candidates.RunEntryInvalidFrozen | FPReordering.h:114-118 | once invalid, an entry never changes again |
| Candidates.RunEntryItemsFrozen | FPReordering.cpp:91-95 | once filled, an entry's items never change |
| Candidates.RunEntryValid | FPReordering.h:114-118 | an entry is valid afterwards exactly when it was valid (or absent) and no update invalidated it |
| Candidates.RunEntryItems | FPReordering.cpp:90-95 | an entry that starts empty and valid ends with the items of the first fill made while it was still valid |
| Candidates.AnalysisOutcome | FPReordering.cpp:90-95 | from an empty registry: an entry exists iff some update names its key; valid iff none invalidates; items from the first fill |
| Candidates.ValidEntriesHaveItems | FPReordering.cpp:82-95 | if every fill writes at least `m >= 1` items, every valid entry has at least `m` items |
| Candidates.KeyIndexByKey | FPReordering.h:113 | identities with one key string find, and create, the same entry |
| Candidates.Registry.constructor | FPReordering.h:113 | a new registry is empty |
| Candidates.Registry.Lookup | FPReordering.cpp:90 | `candidates[k]`: the registry becomes `GetOrCreate`; the payload returned is the one stored for `k`'s entry |
| Candidates.Registry.Invalidate | FPReordering.h:114-118 | the registry becomes `Invalidated(old, k)` |
| FunctionReordering.EqualCases | FPReordering.h:33-48 | different names, or one global and one local, are unequal; locals are equal iff files match; globals iff names match |
| FunctionReordering.EqualIsEquivalence | FPReordering.h:33-48 | `==` is reflexive, symmetric and transitive |
| FunctionReordering.LessIsStrictOrder | FPReordering.h:49-56 | `<` is a strict order; two identities are `<`-equivalent iff their keys are equal |
| FunctionReordering.EqualSharesKey | FPReordering.h:33-56 | `==` identities have the same `<` key |
| FunctionReordering.KeyMatchesEqual | FPReordering.h:33-56 | for names without `:`, `==` holds exactly when the keys match |
| FunctionReordering.ColonNamesCollide | FPReordering.h:52-55 | a global named `f:a.c` and a local `f` in `a.c` share a key but are not `==` |
| FunctionReordering.SameNamedGlobalsShareEntry | FPReordering.h:52-55 | same-named globals from different files are `==` and share one registry entry |
| FunctionReordering.ParamItems | FPReordering.h:72-78 | one item per parameter |
| FunctionReordering.FPReordering.constructor | FPReordering.h:110 | the directories are stored and the registry starts empty |
| FunctionReordering.VisitBinaryOperator | FPReordering.cpp:17-40 | an assignment whose stripped right-hand side names a base-directory function invalidates it; nothing else changes the registry |
| FunctionReordering.VisitCallExpr | FPReordering.cpp:42-72 | a direct call to a base-directory function invalidates it when it starts in a macro or any argument has side effects |
| FunctionReordering.VisitFunctionDecl | FPReordering.cpp:75-100 | an eligible definition looks its entry up and fills its parameters, if the entry is valid and empty |
| FunctionReordering.VisitNode | FPReordering.h:133-136 | a node goes to the visitor for its kind |
| FunctionReordering.Analyse | FPReordering.cpp:159 | the analysis run leaves the registry at `Run` of every node's updates, in traversal order |
| FunctionReordering.NodeOpsOn | FPReordering.cpp:17-100 | a node invalidates `k`'s entry iff `Invalidates`, and offers items iff `Registers` |
| FunctionReordering.AnalysisOpsOn | FPReordering.cpp:17-100 | over a traversal, `k`'s entry is invalidated iff some node invalidates it, and offered items iff some node registers it |
| FunctionReordering.AnalysisValidCandidates | FPReordering.cpp:17-100 | after analysis, a function is a valid candidate iff some eligible definition registers it and no node invalidates it |
| FunctionReordering.AnalysisFillsAtLeastTwo | FPReordering.cpp:82 | every fill the analysis makes has at least two parameters |
| FunctionReordering.ValidCandidatesHaveTwoParams | FPReordering.cpp:82-95 | every valid candidate has at least two recorded parameters |
| FunctionReordering.RewriteCall | FPReordering.cpp:103-127 | a call to the target gets argument slot `i` replaced by the text of argument `ordering[i]`, slot by slot up to the first slot the ordering sends past the arguments, where it stops with `SlotOutOfRange`; an ordering covering every slot rewrites them all; other calls are untouched |
| FunctionReordering.RewriteDecl | FPReordering.cpp:130-153 | a declaration `==` the target gets parameter slot `i` replaced by `type name` of parameter `ordering[i]`, up to the first slot the ordering sends past the parameters (`SlotOutOfRange`); others are untouched |
| FunctionReordering.DeclAndCallAgree | FPReordering.cpp:113-149 | declaration and call slots take the same source index, and the inverse ordering restores the call's arguments |
| FPSelection.ValidEntries | FPReordering.cpp:160-167 | the valid entries, no more than the whole registry |
| FPSelection.ValidEntriesMembers | FPReordering.cpp:160-167 | an entry is collected iff it is in the registry and valid |
| FPSelection.ValidEntriesUnique | FPReordering.cpp:160-167 | the collected entries keep unique keys |
| FPSelection.CollectValid | FPReordering.cpp:160-167 | the loop collects exactly the valid entries, in registry order |
| FPSelection.CollectedCandidates | FPReordering.cpp:160-167 | the candidates have distinct keys, and each one's registry entry is valid and holds its collected items |
| FPSelection.Counts | FPReordering.cpp:175 | one item count per candidate |
| FPSelection.HistogramSums | FPReordering.cpp:171-187 | a histogram that counts each item count sums to the number of counts below any bound |
| FPSelection.CountSumIsLength | FPReordering.cpp:175-187 | when every count lies below the bound, the per-value counts add up to the number of candidates |
| FPSelection.TotalAsWritten | FPReordering.cpp:172-178 | the 64-bit running total is below `2^64` |
| FPSelection.TotalAsWrittenIsReduced | FPReordering.cpp:172-178 | the 64-bit total is the exact sum of factorials modulo `2^64` |
| FPSelection.TotalCountsIdentities | FPReordering.cpp:178 | the sum of `n!` exceeds the sum of `n! - 1` by one identity per candidate |
| FPSelection.Statistics | FPReordering.cpp:171-187 | the histogram holds exactly the item counts that occur, each with its count; its values sum to the number of candidates; the total is the 64-bit sum of factorials |
| FPSelection.FindDuplicate | FPReordering.cpp:233-239 | found iff some accepted transformation has an `==` target and the same ordering |
| FPSelection.ReportPathsFresh | FPReordering.cpp:254 | the report of transformation `n` never overwrites an earlier one |
| FPSelection.ReportedPathsSnoc | FPReordering.cpp:254 | writing the next report adds exactly its path |
| FPSelection.ReportedAtKept | FPReordering.cpp:254 | writing a later report leaves earlier reports unchanged |
| FPSelection.ReportedAtNew | FPReordering.cpp:221-254 | the new report names the target and lists the original and the modified items |
| FPSelection.ReportedSnoc | FPReordering.cpp:221-254 | accepting one more transformation keeps every report matching its transformation |
| FPSelection.AcceptSnoc | FPReordering.cpp:232-258 | appending a fresh, non-duplicate, non-identity transformation keeps the accepted list acceptable and duplicate-free |
| FPSelection.Select | FPReordering.cpp:207-259 | at most `amount` transformations, exactly `amount` on `Finished`; each is a non-identity permutation of a candidate's items; no duplicates; one report each; when every draw is in range the loop never stops on a bad index |
| FPSelection.HistogramJSON | FPReordering.cpp:196-200 | the report maps the decimal text of each item count to its number of candidates, and nothing else |
| FPSelection.FPReorder | FPReordering.cpp:156-259 | the candidates are the valid registry entries; the analytics count them and give their histogram; the selection stays within the clamp `min(requested, sum of n!)` as written, is duplicate-free, and can finish only if that clamp is at most the sum of `n! - 1` |
| FPSelection.Block | FPReordering.cpp:228-241 | one choice per non-identity ordering of one candidate |
| FPSelection.BlockMembers | FPReordering.cpp:228-241 | a candidate's choices are exactly its non-identity permutations |
| FPSelection.BlockDistinct | FPReordering.cpp:228-241 | a candidate's choices are distinct |
| FPSelection.AllChoicesLength | FPReordering.cpp:228-241 | there are as many choices as the sum of `n! - 1` |
| FPSelection.AllChoicesMembers | FPReordering.cpp:228-241 | the choices are exactly the (candidate, non-identity permutation) pairs |
| FPSelection.AllChoicesDistinct | FPReordering.cpp:228-241 | no choice is listed twice |
| FPSelection.AcceptedBound | FPReordering.cpp:211-241 | any accepted duplicate-free list has at most the sum of `n! - 1` transformations |
| FPSelection.AllTransformations | FPReordering.cpp:211-241 | the list of all possible transformations is as long as the sum of `n! - 1` |
| FPSelection.AllTransformationsAccepted | FPReordering.cpp:211-241 | every transformation in that list could be accepted |
| FPSelection.AllTransformationsDistinct | FPReordering.cpp:211-241 | for distinct keys, that list has no duplicates |
| FPSelection.FinishedNeedsEnoughOrderings | FPReordering.cpp:208-258 | the loop can finish with `amount` transformations only if `amount` is at most the sum of `n! - 1` |
| FPSelection.AmountReachable | FPReordering.cpp:208 | the corrected clamp is reachable: some acceptable, duplicate-free list has exactly that many transformations |
| FPSelection.ClampCountsIdentity | FPReordering.cpp:208 | one two-parameter candidate with 2 requested: the clamp as written gives 2, but at most 1 transformation can be accepted |
| StructReordering.StructUniqueOf | StructReordering.h:22-33 | the struct's own name, or its typedef name when it has none, or empty; the file name is kept |
| StructReordering.EqualIffSame | StructReordering.h:36-47 | equal iff name and file name are equal, with no global/local case |
| StructReordering.LessIsStrictOrder | StructReordering.h:48-55 | `<` on `name:fileName` is a strict order; equivalent iff the keys are equal |
| StructReordering.KeyMatchesEqual | StructReordering.h:36-55 | for names without `:`, `==` holds exactly when the keys match |
| StructReordering.AnonymousStructsShareIdentity | StructReordering.h:22-33 | two untypedef'd anonymous structs in one file have one identity |
| StructReordering.FieldItems | StructReordering.h:71-77 | one item per field |
| StructReordering.WalkOpsSpec | StructReordering.cpp:47-87 | the walk of a type never fills, and invalidates `k` iff `Reaches` |
| StructReordering.FieldsWalkOpsSpec | StructReordering.cpp:64-81 | the walk of the fields never fills, and invalidates `k` iff some field's type reaches it |
| StructReordering.StructReordering.constructor | StructReordering.h:108 | the directories are stored and the registry starts empty |
| StructReordering.VisitRecordDecl | StructReordering.cpp:16-45 | an eligible struct definition looks its entry up and fills its fields, if the entry is valid and empty |
| StructReordering.DetectStructsRecursively | StructReordering.cpp:47-87 | a base-directory struct is invalidated and its fields walked; a union's fields and an array's element are walked |
| StructReordering.DetectFields | StructReordering.cpp:64-70 | the walk of every field, in field order |
| StructReordering.DetectFieldsFrom | StructReordering.cpp:64-70 | the walk of the fields from the `j`-th on, in field order |
| StructReordering.DetectFieldType | StructReordering.cpp:66-69 | the walk of one field's type |
| StructReordering.VisitVarDecl | StructReordering.cpp:89-105 | global storage walks the type, and so does an initializer list, once each |
| StructReordering.VisitNode | StructReordering.h:132-134 | a node goes to the visitor for its kind |
| StructReordering.Analyse | StructReordering.h:131-134 | the analysis leaves the registry at `Run` of every node's updates, in traversal order |
| StructReordering.NodeOpsOn | StructReordering.cpp:16-105 | a node invalidates `k` iff `Invalidates`, and offers fields iff `Registers` |
| StructReordering.AnalysisOpsOn | StructReordering.cpp:16-105 | over a traversal, `k` is invalidated iff some node invalidates it, and offered fields iff some node registers it |
| StructReordering.AnalysisValidCandidates | StructReordering.cpp:16-105 | a struct is a valid candidate iff some eligible definition registers it and no global or list-initialised variable reaches it |
| StructReordering.WalkFillsNothing | StructReordering.cpp:47-87 | the walk makes no fill |
| StructReordering.FieldsWalkFillsNothing | StructReordering.cpp:64-81 | the field walk makes no fill |
| StructReordering.AnalysisFillsAtLeastTwo | StructReordering.cpp:23 | every fill the analysis makes has at least two fields |
| StructReordering.ValidCandidatesHaveTwoFields | StructReordering.cpp:23-41 | every valid struct candidate has at least two recorded fields |
| StructReordering.RewriteRecord | StructReordering.cpp:107-131 | the target's struct definition gets field slot `i` replaced by the text of field `ordering[i]`, up to the first slot the ordering sends past the fields (`SlotOutOfRange`); other records are untouched |
| StructReordering.SameNamedStructsOverrun | StructReordering.cpp:109-120 | two same-named block-scope definitions share the identity; an acceptable ordering for the first sends slot 0 of the second past its one field |
| StructReordering.RewriteRecordChecked | StructReordering.cpp:109-127 | with a field-count check, no permutation ever reads a slot out of range, and a rewritten definition's texts are permuted and restored by the inverse |
| SwitchReordering.SwitchUniqueOf | SWCReordering.h:21 | the constructor leaves name and file name empty |
| SwitchReordering.EqualIffSame | SWCReordering.h:24-35 | equal iff name and file name are equal |
| SwitchReordering.LessIsStrictOrder | SWCReordering.h:36-43 | `<` on `name:fileName` is a strict order; equivalent iff the keys are equal |
| SwitchReordering.AllSwitchesEqual | SWCReordering.h:21-43 | any two switches get `==` identities, neither `<` the other, with key `:` |
| SwitchReordering.SwitchDataHasNoItems | SWCReordering.h:49-58 | `empty`, `nrOfItems` and `getJSON` answer as a payload with no items does |
| SwitchReordering.SWCReordering.constructor | SWCReordering.h:71 | the directories are stored and the registry starts empty |
| SwitchReordering.InvalidateCandidate | SWCReordering.h:75-79 | the registry becomes `Invalidated(old, candidate)` |
| SwitchReordering.AllSwitchesShareOneEntry | SWCReordering.h:21 | invalidating any switches leaves exactly one entry, and it is invalid |
| SemanticUtil.Factorial | SemanticUtil.cpp:49-52 | `n!` is at least 1 and at least `n` |
| SemanticUtil.FactorialStep | SemanticUtil.cpp:51 | `n! = n * (n - 1)!` for `n >= 1` |
| SemanticUtil.Factorial64 | SemanticUtil.cpp:49-52 | the `unsigned long` result is below `2^64` |
| SemanticUtil.Factorial20 | SemanticUtil.cpp:49-52 | `20!` is 2432902008176640000 |
| SemanticUtil.FactorialGrows | SemanticUtil.cpp:51 | `(n - 1)! <= n!` |
| SemanticUtil.FactorialMonotone | SemanticUtil.cpp:49-52 | the factorial is monotone |
| SemanticUtil.Factorial64IsReduced | SemanticUtil.cpp:49-52 | the 64-bit factorial is the exact factorial modulo `2^64` |
| SemanticUtil.Factorial64Exact | SemanticUtil.cpp:49-52 | up to 20 the 64-bit factorial is exact |
| SemanticUtil.Factorial64Overflows | SemanticUtil.cpp:49-52 | at 21 it wraps to 14197454024290336768 |
| SemanticUtil.FactorialCountsOrderings | FPReordering.cpp:178 | the number of permutations of `n` is `n!` |
| SemanticUtil.NonIdentityOrderingsSpec | SemanticUtil.cpp:40-44 | the non-identity orderings are exactly the permutations other than the identity, `n! - 1` of them, all distinct |
| SemanticUtil.Random0ToNAsWrittenCanOverrun | SemanticUtil.cpp:28-32 | `uniform_int_distribution(0, n)` can return `n`, which the header's range `[0, n-1]` excludes |
| SemanticUtil.Random0ToNIndexes | SemanticUtil.h:14 | an index in the header's range picks a candidate of the list |
| SemanticUtil.Shuffled | SemanticUtil.cpp:42-44 | repeated shuffles of a permutation give a permutation |
| SemanticUtil.GenerateRandomOrdering | SemanticUtil.cpp:34-47 | the result is the first shuffle that moved the identity, a non-identity permutation; none when every shuffle left the identity, and always none below two items |
| SemanticUtil.JsonFilePathShape | SemanticUtil.cpp:61-77 | version `-1` writes to `outputPath/fileName`, any other version to `outputPath + "v" + version + "/" + fileName` |
| SemanticUtil.DigitsBeforeSlash | SemanticUtil.cpp:64-77 | digit strings followed by `/` split uniquely |
| SemanticUtil.JsonPathsDistinct | SemanticUtil.cpp:61-77 | different versions are written to different paths |
| OutputPaths.RelativePathSpec | Semantic.cpp:76 | with the base directory present, the text after its first occurrence; without it, `npos + length` wraps and the text from `length - 1` is taken |
| OutputPaths.AnalyserRelativePathDropsOne | SemanticAnalyser.cpp:185 | the older pass takes the same text without its first character, and fails if it is empty |
| OutputPaths.AnalyserRelativePathLosesLetter | SemanticAnalyser.cpp:185 | with base `src/`, `src/main.c` becomes `main.c` in one pass and `ain.c` in the other |
| OutputPaths.Subdirectory | Semantic.cpp:80-83 | the prefix before the last `/` or `\`, present exactly when such a separator exists |
| OutputPaths.SubdirectoryHoldsFile | Semantic.cpp:83-90 | the output path is the subdirectory, a separator, and a name with no separator |
| OutputPaths.VersionsWriteApart | Semantic.cpp:53-90 | different versions write a file to different paths, of the same shape as `writeJSONToFile` |
| OutputPaths.WriteBuffersSpec | SemanticFrontendAction.h:127-159 | buffers are written in order, each to its relative path under the version directory, until the first path or subdirectory failure |
| OutputPaths.WriteBuffer | SemanticFrontendAction.h:129-158 | one buffer's turn: its subdirectory, its output file, or the failure that stops the flush |
| OutputPaths.WriteChangesToOutput | SemanticFrontendAction.h:107-160 | the flush loop produces exactly `WriteChanges` |
| OutputPaths.SemanticEndSourceFileAction | Semantic.cpp:35-47 | only in the rewrite phase with some buffer: flush, then undo every change unless a relative path threw, which leaves the edits (the tool stops there); otherwise nothing changes |
| OutputPaths.RewritingEndSourceFileAction | SemanticFrontendAction.h:94-105 | with some buffer: flush with subdirectory failures checked, then undo so the next version starts clean; a relative path that throws skips the undo and leaves the edits |
| OutputPaths.WriteChangesSpec | Semantic.cpp:50-99 | the version directory comes first; if it fails nothing is written; `Written` iff it succeeds and every buffer is written |
| Rewriting.Rewriter.ReplaceText | FPReordering.cpp:122 | `ReplaceText` appends one edit |
| Rewriting.Rewriter.UndoChanges | Semantic.cpp:45 | `undoChanges` drops every edit and every buffer |
| Rewriting.HasBuffersIffSomeBuffer | Semantic.cpp:41 | `buffer_begin() != buffer_end()` iff some file has a buffer |
| Rewriting.SlotEditsApply | FPReordering.cpp:113-123 | slot `i` keeps its range and receives text `ordering[i]` |
| Rewriting.SlotEditsRoundTrip | FPReordering.cpp:113-123 | the inverse ordering restores the original texts from the written ones |
| Rewriting.SlotEditsIdentity | StructReordering.cpp:118-127 | the identity ordering rewrites every slot with its own text |
| SemanticData.SwitchData.constructor | SemanticData.h:23-29 | `getLocation` and `getFileName` return the stored values; the XOR value is unset |
| SemanticData.SwitchData.SetRandomXORValue | SemanticData.h:32-39 | a later `getRandomXORValue` returns the value set |
| SemanticData.SWCReordering.constructor | SemanticData.h:60 | both maps and the rewritten set start empty |
| SemanticData.SWCReordering.AddSwitchData | SemanticData.cpp:15-19 | `switchMap[key] = data`: the key is present and maps to `data`, overwriting; nothing else changes |
| SemanticData.SWCReordering.AddSwitchReorderingData | SemanticData.cpp:21-26 | `switchReorderings[key] = data`, overwriting; nothing else changes |
| SemanticData.SWCReordering.SwitchRewritten | SemanticData.cpp:28-36 | the key is rewritten afterwards; a second insert changes nothing |
| SemanticData.SWCReordering.ClearSwitchReorderings | SemanticData.cpp:56-60 | only the reorderings become empty |
| SemanticData.SWCReordering.ClearRewritten | SemanticData.cpp:62-66 | only the rewritten set becomes empty |
| SemanticAnalyser.StructData.constructor | SemanticAnalyser.cpp:32 | name and file name stored, no fields |
| SemanticAnalyser.StructData.AddFieldData | SemanticAnalyser.cpp:46 | one field record appended |
| SemanticAnalyser.StructReordering.constructor | SemanticAnalyser.cpp:17 | the struct map, the reorderings and the rewritten set start empty |
| SemanticAnalyser.VisitRecordDecl | SemanticAnalyser.cpp:7-54 | a struct whose name is new is recorded with fields at positions `0..k-1`; a known name leaves everything unchanged |
| SemanticAnalyser.Analyse | SemanticAnalyser.cpp:134-135 | the analysis records the structs in traversal order |
| SemanticAnalyser.FirstRecordWins | SemanticAnalyser.cpp:18-20 | a name is recorded iff some struct of that name was visited; the first one's fields are kept |
| SemanticAnalyser.ForwardDeclarationHidesFields | SemanticAnalyser.cpp:10-20 | `struct S;` before the definition leaves `S` with no fields as written, and the definition's two with a definition check |
| SemanticAnalyser.FirstDefinitionRecorded | StructReordering.cpp:18 | with a definition check, a name is recorded iff some definition has it, with the first definition's fields |
| SemanticAnalyser.FindField | SemanticAnalyser.cpp:99-104 | the first record at or after `from` with the position, or none |
| SemanticAnalyser.PositionEditsFromReordered | SemanticAnalyser.cpp:96-117 | with reordered records, the edits from slot `i` on are the slot substitution's edits from `i` on |
| SemanticAnalyser.PositionRewriteIsSlotSubstitution | SemanticAnalyser.cpp:96-117 | the position search puts field `ordering[i]` into slot `i`, keeps every slot's range, and the inverse ordering restores the texts |
| SemanticAnalyser.RewriteFields | SemanticAnalyser.cpp:89-118 | the loop issues exactly `PositionEdits` of the records |
| SemanticAnalyser.RewriteRecordDecl | SemanticAnalyser.cpp:58-125 | a struct with reorderings that is not yet rewritten is rewritten and marked; any other is left alone |
| SemanticAnalyser.RewriteRecordDeclTwice | SemanticAnalyser.cpp:74-77 | visiting a struct twice rewrites it at most once |
| SemanticAnalyser.AnalyserEndSourceFileAction | SemanticAnalyser.cpp:147-156 | outside analysis with some buffer: flush with the one-character-later relative path, then undo unless that path threw, which leaves the edits; otherwise nothing changes |

## Left out

- Clang itself is not modelled. The AST, `isMacroID`, `HasSideEffects`,
  `getExpansionRange`, `getLocForEndOfToken` and `location2str` become
  recorded attributes of the nodes. A range is taken to be the expanded
  range; the field ranges of SemanticAnalyser.cpp:43 are unexpanded, and
  the model does not tell them apart.
- `mt19937`, `std::shuffle` and `random_shuffle` are a finite stream of
  draws (an index and the permutations the shuffles perform), not a
  generator.
- `entropyEquiprobable` (`log2`) and the `avgItems` average are left out
  because they are floating point. The analytics keep the candidate count
  and the histogram; writing them to `analytics.json` is left out as I/O.
- `system("mkdir -p")`, `ofstream` and JSON styled writing are left out
  as I/O.
  - Output is a `Flush` value, or a map from report path to report.
  - `mkdir` failure is a predicate passed in as a parameter.
  - The error messages and `llvm::outs()` logging are dropped.
- These are left out as plumbing: the frontend-action factories,
  consumers, `CreateASTConsumer`, `HandleTranslationUnit` dispatch, and
  the rewrite runs per version (FPReordering.cpp:262-268). Each version's
  rewrite is `RewriteCall`/`RewriteDecl` with that version's
  transformation.
- The `reorder` template used by StructReordering.cpp:135 is not part of
  this model. Struct selection is therefore modelled only through the
  analysis and the rewriter.
- The code that fills `structReorderings` for the older pass is not part
  of this model. The class of that pass is modelled from its uses in
  SemanticAnalyser.cpp (`isInStructMap`, `addStructData`,
  `isInStructReorderingMap`, `hasBeenRewritten`, `structRewritten`).
- SWCReordering.cpp is a stub, and its visitors are not modelled.
- The `SWCReordering` destructor in SemanticData.cpp is left out
  (memory ownership).
- The trailing-slash normalisation in SemanticModification.cpp is not
  part of this model. Directories are plain strings.
- `SemanticData.SWCReordering.GetSwitchMap`: a Dafny map is a value, so
  the copy that `getSwitchMap`/`getSwitchReorderings` return is implicit.
  No contract states it.
- `SemanticUtil.GenerateRandomOrdering`: below two items the source loops
  forever. The model returns `None` instead, and it also returns `None`
  when the shuffles run out.
- `FPSelection.Select`: a loop that would never stop in the source stops
  with `DrawsExhausted` once the finite stream of draws runs out.
- `FPSelection.Select`: a draw equal to the number of candidates reads past
  the vector in the source, which is undefined behaviour. The model stops
  with `IndexOutOfRange` instead.
- `FunctionReordering.RewriteCall`: when the ordering sends a slot past the
  call's arguments (a call through an unprototyped declaration with fewer
  arguments), `CE->getArg(ordering[i])` reads past them, which is undefined
  behaviour. The model stops at that slot with `SlotOutOfRange`.
- `FunctionReordering.RewriteDecl`: the same for `FD->getParamDecl(ordering[i])`
  on a declaration of the target with fewer parameters.
- `StructReordering.RewriteRecord`: the same for `fields[ordering[i]]` on a
  same-named definition with fewer fields (see Findings).
- `OutputPaths.SemanticEndSourceFileAction`, `OutputPaths.RewritingEndSourceFileAction`
  and `SemanticAnalyser.AnalyserEndSourceFileAction`: when a relative path
  throws `std::out_of_range`, nothing catches it and the tool ends. The
  model returns the `RelativePathOutOfRange` status with the edits left in
  place, and does not model the end of the process.
- `StructReordering.DetectFieldsFrom`: the field loop of
  `detectStructsRecursively` is written as recursion over the field
  index, not as a `for` loop. The effect and the order of the walk are the
  same.

## Findings

| source | as written | input that shows it | evidently intended | confidence | as-written member | corrected member |
|---|---|---|---|---|---|---|
| SemanticUtil.cpp:28-32 | `uniform_int_distribution<unsigned>(0, n)` draws from `[0, n]` | a draw of `n` with `n == candidates.size()` indexes past the list at FPReordering.cpp:214 | the header's `[0, n-1]` (SemanticUtil.h:14) | high; not executed | SemanticUtil.Random0ToNAsWrittenCanOverrun | SemanticUtil.Random0ToNIndexes |
| FPReordering.cpp:208 | `amount = min(requested, sum of n!)` counts the identity ordering, which the loop rejects | one candidate with two parameters and 2 versions requested: `amount` is 2, but only `[1, 0]` can ever be accepted, so the loop never ends | clamp at the sum of `n! - 1` | high; not executed | FPSelection.ClampCountsIdentity | FPSelection.AmountReachable |
| SemanticUtil.cpp:49-52 | `factorial` in `unsigned long` wraps for `n >= 21` | 21 parameters give 14197454024290336768 instead of 51090942171709440000 | the exact count of orderings | medium; not executed | SemanticUtil.Factorial64Overflows | SemanticUtil.FactorialCountsOrderings |
| SemanticAnalyser.cpp:185 | the relative path skips one more character than Semantic.cpp:76 does | base `src/`, file `src/main.c`: written as `ain.c` | `main.c`, as in Semantic.cpp:76 | low, because it depends on whether the base directory ends in `/`; not executed | OutputPaths.AnalyserRelativePathLosesLetter | OutputPaths.RelativePathSpec |
| SemanticAnalyser.cpp:10-20 | any struct declaration, without a definition check, claims the name | `struct S;` before `struct S { int a; int b; };` records `S` with no fields | record the definition's fields, as StructReordering.cpp:18 does | medium; not executed | SemanticAnalyser.ForwardDeclarationHidesFields | SemanticAnalyser.FirstDefinitionRecorded |
| StructReordering.cpp:109-120 | the rewriter visits every struct definition `==` the target and reads `fields[ordering[i]]` | block-scope `struct S { int a; int b; }` and `struct S { int x; }` in one file: `S` is recorded with two fields, `[1, 0]` is accepted, and rewriting the second definition reads `fields[1]` of a one-field list | rewrite only a definition the ordering fits | medium; not executed | StructReordering.SameNamedStructsOverrun | StructReordering.RewriteRecordChecked |
