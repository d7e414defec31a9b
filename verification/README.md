# Verified model of the fail-closed document verifiers

The service edits Hancom documents through a native editor it cannot trust. After every edit it reads the document back
and accepts only if the observed after-state is exactly the planned edit; around that it keeps shared state files and
sessions consistent. This project models the deciding code and proves what its acceptance is worth.

| file | what it models |
|---|---|
| `Text.dfy` | Python text primitives: `strip`, `str`/`int` on decimals, `sorted` on strings |
| `Hwpml.dfy`, `Signatures.dfy` | HWPML trees; the printed canonical form `signature()` and its cache |
| `BoundLists.dfy` | the greedy matcher for lists a section owns (NUMBERINGLIST, MEMOSHAPELIST) |
| `HeadGrowth.dfy`, `HeadAcceptance.dfy` | the growth-only comparison of HEAD, and what it accepts, read off the two trees |
| `GrowthRuns.dfy` | runs of accepted edits |
| `References.dfy`, `DefinitionUse.dfy` | who refers to which definition, and the attributes and fields that do, spelled out |
| `SectionDefinitions.dfy`, `SectionBinding.dfy` | what a section insert or delete may do to definitions; the exact condition under which a new reference is bound |
| `CopyForms.dfy` | the substitution by which a new section's SECDEF passes for a copy, and what that is worth |
| `BodyTokens.dfy`, `BreakAcceptance.dfy` | the section break in the body tokens, tied to the caret; what is accepted, position by position |
| `BodyLinear.dfy`, `SectionEdits.dfy` | the tokens of a body tree; body and HEAD acceptance taken together, over whole runs |
| `UtcSeconds.dfy`, `SavedPackage.dfy`, `PackageAcceptance.dfy` | the typed volatile values and the whole-package comparison; what it accepts, read off the two packages |
| `HistoryDigest.dfy`, `DigestsApart.dfy` | the coarser history digest: when accepted packages have the same one, and two that do not |
| `LineReflow.dfy`, `PictureLayout.dfy`, `PictureRequest.dfy` | the in-place line reflow, the picture request that may cause one, and that request attribute by attribute |
| `PathLocks.dfy` | the ref-counted lock registry and atomic JSON updates, as steps of any number of threads and processes |
| `CallAnswers.dfy`, `CallsAlone.dfy` | what the locked JSON calls return in any such interleaving, what one does undisturbed, and when it waits |
| `EventLog.dfy` | the rotating JSONL log |
| `Sessions.dfy`, `SessionEffects.dfy` | the session operations one at a time: admission, lifecycle, generation, reaper; their effects field by field |
| `SessionRuns.dfy` | the same operations at their lock sections, in any interleaving |
| `CellAddress.dfy` | cell addresses and bounded table navigation |
| `NumberingProtocol.dfy` | the numbering step: which outcome may leave it against an arbitrary editor |

How the model is built. Trees are datatypes; an absent text or tail of an HWPML element is the empty string, as the code
reads it (the saved-package trees keep the difference between absent and empty, as that code does). A list of reason
strings is a sequence of which only "empty or not" matters. Loops of the source are `method`s proved against a predicate
or function, and the theorems are lemmas about that predicate. Where a loop and its specification share a predicate, a
lemma of its own says what that predicate means on the attributes, Ids and positions themselves (the `...Exactly` lemmas). Objects the source updates in place (the event files, the
session manager, the lock registry, the guarded numbering step) are classes. Clocks, parsed XML, the native editor and
the updater callbacks are parameters, so every theorem holds for all of them.

What came out as a result rather than as the expected statement:

- Growth acceptance composes exactly when the appended entries do not mix absent and present Ids
  (`GrowthRuns.ListGrowthComposes`, `GrowthRuns.GrownComposes`), and so do whole runs (`GrowthRuns.RunGrownExactly`);
  `GrowthRuns.MixedIdsDoNotCompose` is a pair of accepted edits that is not one.
- At most one session is live in every interleaving of the lock sections in which each section meets its condition, and each
  section keeps that invariant exactly under it (`SessionRuns.StepExact`). An update that hands a live state to a terminal
  session is harmless with no open under way, but between the check and the save of an open it leaves two sessions live
  (`SessionRuns.UpdateDuringOpen`); it is harmless whatever is under way exactly when it revives nothing
  (`SessionRuns.UpdateExact`). Callers that give no live state to a terminal or unknown session, nor to a close, are enough,
  as long as no open breaks off between its save and its active-record write (`SessionRuns.GentleCallers`); one that does
  lets the next open create a second live session (`Sessions.TwoLiveFromNothing`).
- A stale draft is not refused for good: a removed id accepts any draft and a reopened one counts from 1 again
  (`SessionRuns.OldDraftOverwrites` is the run in which an old draft overwrites a later life of the session). In every run a
  draft is refused exactly when the id is stored and has earned another generation than the draft carries
  (`SessionRuns.StaleExact`).
- After a mutator was announced every ordinary exception says the change may persist, except when the native call
  returned a complete success and only giving the caret back failed: that one leaves as a plain runtime error
  (`NumberingProtocol.GuardedStep.Apply`); `NumberingProtocol.CaretCanBeLost` is an editor with which it happens.
- The documentation of the copy check says a new SECDEF must be an exact copy apart from the references bound elsewhere. The
  pattern of `_copy_form` also matches below the SECDEF and inside quoted values, so that two definitions that differ
  elsewhere pass for copies (`CopyForms.CopyCheckFooled`) and an exact copy can be refused (`CopyForms.CopyCheckRefuses`).
  On one definition the substitution takes out the references and nothing else exactly when the pattern matches at as many
  places as the SECDEF carries references (`CopyForms.CopyFormExact`).
- The body tokens list the sections of a document exactly when no control of the body holds a SECDEF inside it
  (`BodyLinear.DocumentLists`).
- The volatile values are assigned one after another, so a selector may read what another spec assigns, which the profile
  checks do not forbid. Two specs taken in order keep the promise of the update, or of the blanking, exactly when the first
  does not change what the second selects, and a profile of such specs keeps it too (`SavedPackage.ApplyExact`,
  `SavedPackage.BlankExact`). Under such a profile accepted packages have the same history digest exactly when each volatile
  field stands at the same places in both (`HistoryDigest.AcceptedDigests`), as it does when each selector is disturbed by
  one spec at most. With two it need not: `DigestsApart.AcceptedDigestsDiffer` is a pair of packages with rising timestamps
  that the comparison accepts and the digest tells apart.

## Model

| member | source | states |
|---|---|---|
| Text.DecimalRoundTrip | app/local_cli_document.py:63-66 | printing a natural number and reading it back is the identity, without a leading zero |
| Text.DecimalCanonical | app/hwpx_saved_proof.py:83 | a digit run without leading zeros is the printed form of its value |
| Signatures.ReprDecodes | app/hwpml_invariants.py:98-102 | Python's repr of attribute values is self-delimiting: the printed string and all that follows it are determined |
| Signatures.SignatureDecodes | app/hwpml_invariants.py:105-131 | printed elements are uniquely decodable: equal texts with arbitrary continuations come from equal pruned trees and equal continuations |
| Signatures.SignatureFaithful | app/hwpml_invariants.py:105-131 | for all trees of any width and depth, signatures are equal exactly when the trees are equal after dropping volatile or ignored attributes and omitted subtrees |
| Signatures.SignatureCached | app/hwpml_invariants.py:105-131 | with a cache filled from the same tree under the same ignore and omit, the result is the uncached signature and the cache stays such a cache |
| BoundLists.MatchIsForced | app/hwpml_invariants.py:183-217 | any way of explaining the new list as kept old entries plus appended ones is the one the greedy walk finds |
| BoundLists.MatchDecides | app/hwpml_invariants.py:183-217 | some explanation within the removable and created Ids exists exactly when the greedy one is within them |
| BoundLists.EntryReasons | app/hwpml_invariants.py:183-217 | the entry walk is silent exactly when the new list is the old one minus removable entries, order and content kept, followed by created entries with unused Ids |
| BoundLists.BoundListReasons | app/hwpml_invariants.py:162-217 | no reason exactly when the lists are signature-equal, or both are well formed, attributes other than Count agree and the entries changed only by the delta |
| HeadGrowth.IdReasons | app/hwpml_invariants.py:134-153 | the Id check is silent exactly when appended Ids are fresh, distinct and continue 0..n-1 numbering, or no entry carries one |
| HeadGrowth.ListReasons | app/hwpml_invariants.py:290-301 | a growable list passes exactly when its old entries are an unchanged prefix, appended ones are of its own kind, Count follows and Ids are fresh |
| HeadGrowth.PairChildren | app/hwpml_invariants.py:302-325 | the merge loop pairs precisely the children that neither came nor went, refuses exactly the unaccounted lists, and gives up only when the kept children's tags differ |
| HeadGrowth.HeadGrowthReasons | app/hwpml_invariants.py:254-331 | despite the early stop at five reasons the recursion adds nothing exactly when the trees are in the inductively defined growth relation |
| HeadGrowth.HeadTailReasons | app/hwpml_invariants.py:616-637 | nothing is reported exactly when HEAD grew and every other part outside BODY is signature-equal, BINDATA Size aside |
| HeadAcceptance.GrowableExactly | app/hwpml_invariants.py:254-301 | attribute by attribute and entry by entry, when a growable list is accepted: only InstId, an AUTONUM Number, an attribute the edit names for the tag, and Count once there are more entries may differ; entries are kept in front, new ones are of the list's own kind with new Ids, and Count rose by their number |
| HeadAcceptance.PlainExactly | app/hwpml_invariants.py:254-331 | any other element, where no definition list comes or goes, is accepted exactly when only such attributes differ and each child, in number and order, grew |
| HeadAcceptance.BoundListExactly | app/hwpml_invariants.py:183-217 | a definition list on both sides is accepted exactly when nothing compared changed, or both can be read and the new one is the old one without removable entries, followed by created entries under Ids the old one did not hold |
| HeadAcceptance.ComingExactly | app/hwpml_invariants.py:232-251 | where one definition list comes, acceptance is that it stands in MAPPINGTABLE in schema order, readable, not empty, all its entries created, with everything around it grown in place |
| HeadAcceptance.GoingExactly | app/hwpml_invariants.py:220-229 | where one goes, that it was readable and every entry was removable, with everything around it grown in place |
| HeadAcceptance.DocumentExactly | app/hwpml_invariants.py:616-637 | a document is accepted exactly when HEAD grew and every other part but BODY compares equal up to the Size of a BINDATA |
| HeadAcceptance.AppendAccepted | app/hwpml_invariants.py:134-153 | a list to which entries of its own kind with new Ids were appended and whose Count was raised by their number is accepted, whatever else is allowed |
| HeadAcceptance.DocumentAppendAccepted | app/hwpml_invariants.py:616-637 | so is a document in which one list of the mapping table gained entries that way, with nothing allowed and nothing accounted for |
| GrowthRuns.ListGrowthComposes | app/hwpml_invariants.py:134-153 | two growths of one list make one growth exactly when the entries gained over both do not mix absent and present Ids |
| GrowthRuns.GrownComposes | app/hwpml_invariants.py:254-331 | two growths of whole trees under the empty delta make one growth exactly when no growable list anywhere in them mixes absent and present Ids among the entries gained over both, if no list's Count is freed |
| GrowthRuns.GrownTransitive | app/hwpml_invariants.py:254-331 | for edits without removed or created definitions (empty delta), growth of whole trees composes when every entry of the last tree's growable lists carries an Id and no list's Count is freed |
| GrowthRuns.UnchangedAccepted | app/hwpml_invariants.py:616-637 | an unchanged document is in the accepted relation whatever the edit allows, so acceptance is not empty |
| GrowthRuns.RunGrown | app/hwpml_invariants.py:616-637 | any number of edits, each accepted under its own allowance with an empty delta, is one change accepted under any allowance that covers them all, when every entry of the last document's growable lists carries an Id and no list's Count is freed |
| GrowthRuns.RunComposes | app/hwpml_invariants.py:254-331 | any number of growths of one tree under the empty delta make one growth exactly when no growable list mixes absent and present Ids among all it gained, if no list's Count is freed |
| GrowthRuns.RunGrownExactly | app/hwpml_invariants.py:616-637 | a whole run of edits, each accepted under its own allowance with the empty delta, is one accepted change under any allowance that covers them exactly when no growable list of HEAD mixes absent and present Ids among all it gained, if no list's Count is freed |
| GrowthRuns.MixedIdsDoNotCompose | app/hwpml_invariants.py:144-153 | a concrete TABDEFLIST shows that composition fails once an entry without Id is followed by one with |
| References.DefinitionReferences | app/hwpml_invariants.py:392-429 | one pass groups, for every Id of both lists, all its referrers in document order and nothing else |
| References.ReferencedMeansNamed | app/hwpml_invariants.py:392-429 | an entry has a referrer exactly when some element of the document names it: a SECDEF, a numbered PARASHAPE, a memo field or a MemoShape attribute |
| DefinitionUse.NumberingUsed | app/hwpml_invariants.py:392-429 | a numbering is referred to exactly when some SECDEF holds its Id as OutlineShape or some PARASHAPE as Heading, unless that heading's type, trimmed and in lower case, is none, bullet, 0 or 3 |
| DefinitionUse.MemoShapeUsed | app/hwpml_invariants.py:354-429 | a memo shape is referred to exactly when some SECDEF holds its Id as MemoShapeId, some other element in an attribute whose name contains memoshape, or some Memo field asks for it with MEMO/<Id>/, it is not 65535 and it is defined |
| DefinitionUse.SoleReferrer | app/hwpml_invariants.py:392-429 | the n-th SECDEF is the only referrer of a definition exactly when it holds the Id and no other element of the document names it |
| DefinitionUse.ResolveExactly | app/hwpml_invariants.py:438-450 | an Id stands for an entry exactly when the mapping table holds just one list of that kind, it can be read, and the entry is in it under that Id; a list that is there twice or cannot be read has no index |
| DefinitionUse.MemoProblemsExactly | app/hwpml_invariants.py:354-389 | a problem is reported exactly when some memo field, by type or by command, is not a Memo field asking for a defined shape or for none |
| SectionDefinitions.AcceptedIndex | app/hwpml_invariants.py:438-450 | in an accepted document each definition list's Id index moved only by the delta: content kept, removed only if removable, new only if created |
| SectionDefinitions.InsertPreservesMeaning | app/hwpml_invariants.py:457-515 | after an accepted insert each reference of the new SECDEF means what the split section's one meant, or the default memo shape; every appended entry is referenced by the new SECDEF and nothing else; every other reference resolves as before |
| SectionDefinitions.SectionInsertDefinitions | app/hwpml_invariants.py:457-515 | the loop returns a delta of just the entries bound for the new section, refuses exactly when some reference cannot be bound, and returns exactly the attributes whose references were bound |
| SectionBinding.BindExactly | app/hwpml_invariants.py:457-515 | a reference of the new SECDEF is copied exactly when it is the split section's; it is bound to an Id exactly when it differs, both lists can be read, the Id is undefined before and defined after, nothing else in the document names it, and its definition equals the split section's up to Id, or is the default memo shape where that section had none |
| SectionBinding.NewReferenceBound | app/hwpml_invariants.py:457-515 | a new Id that the edit defined and the new SECDEF alone names is bound exactly when it stands for the split section's definition; otherwise the insert is refused |
| SectionBinding.InsertDeltaExactly | app/hwpml_invariants.py:457-515 | the returned delta removes nothing and creates, per list, exactly that Id |
| SectionBinding.EqualUpToIdExactly | app/hwpml_invariants.py:453-454 | equal up to Id means equal in tag, text, children and every compared attribute but Id |
| SectionBinding.DefaultMemoExactly | app/hwpml_invariants.py:432-433 | the default memo shape is an empty element with exactly these seven attribute values besides its Id |
| SectionBinding.NativeBreakAccepted | app/hwpml_invariants.py:457-515 | the break Hancom makes is accepted: where HEAD only gained one numbering equal to the split section's up to Id, the outline reference is bound to it and HEAD passes under the returned delta |
| SectionDefinitions.BoundNamesIds | app/hwpml_invariants.py:457-515 | the returned attributes are reference attributes, and both the split SECDEF and the new one hold Ids in them |
| SectionDefinitions.DeleteKeepsReferenced | app/hwpml_invariants.py:518-533 | after an accepted delete everything still named or asked for is still the same definition; whatever went was named by the removed SECDEF alone; nothing new appeared |
| DefinitionUse.FreedExactly | app/hwpml_invariants.py:518-533 | a delete may drop exactly the definition that its SECDEF names and no other element names before or after, and no memo shape while some memo field cannot be read |
| DefinitionUse.DeleteKeepsUsed | app/hwpml_invariants.py:518-533 | after an accepted delete whatever some element uses is still the same definition |
| DefinitionUse.NumberedHeadingKeeps | app/hwpml_invariants.py:418-421 | in particular the numbering a PARASHAPE of type Number names is never dropped |
| SectionDefinitions.MemoFieldsKept | app/hwpml_invariants.py:354-389 | a memo field of the after-document never asks for a shape the delete dropped, not even one whose reference the drop makes unreadable |
| CopyForms.CopyFormExact | app/layout_ops.py:550-556 | on the printed form of any SECDEF tree, the substitution yields the printed form of the tree without its bound references exactly when the pattern matches at as many places as the SECDEF carries such references |
| CopyForms.CopiesAgree | app/layout_ops.py:550-556 | two clean SECDEFs have equal copy forms exactly when they are equal apart from the bound references |
| CopyForms.CopyIsExact | app/layout_ops.py:550-556 | two SECDEFs with equal copy forms, one of them clean, are exact copies apart from the bound references exactly when both are clean |
| CopyForms.CopyCheckFooled | app/layout_ops.py:550-556 | a concrete pair of SECDEFs with equal copy forms that differ beyond their own references |
| CopyForms.CopyCheckRefuses | app/layout_ops.py:550-556 | a concrete pair of SECDEFs that differ in nothing but a bound reference and yet have different copy forms |
| BodyTokens.LocateBlock | app/layout_ops.py:623-636 | the prefix and suffix loops meet exactly when the longer body is the shorter one with one contiguous block inserted somewhere |
| BodyTokens.SectionInsertReasons | app/layout_ops.py:623-674 | an insert passes exactly when the bodies differ by one block of an allowed shape, at the caret, that keeps the split paragraph's attributes and whose SECDEF has the copy form of the split section's one under the bound attributes |
| BodyTokens.SectionDeleteReasons | app/layout_ops.py:623-674 | a delete passes exactly when one block of an allowed shape is gone and it belonged to the requested section |
| BreakAcceptance.InsertExactly | app/layout_ops.py:623-670 | position by position, when an insert is accepted: where the bodies first differ the new one holds a closing P, possibly a SECTION boundary, an opening P, its SECDEF and at most one COLDEF, and is otherwise equal; the caret's paragraph agrees with the new one in every attribute but ColumnBreak and PageBreak; the SECDEF has the copy form of the last one before it and the COLDEF is the last one before it |
| BreakAcceptance.DeleteExactly | app/layout_ops.py:623-674 | a delete is accepted exactly when such a block is gone and the SECDEFs in front of it number one less than the section asked for |
| BreakAcceptance.CaretExactly | app/layout_ops.py:595-613 | the caret is at a token exactly when its paragraph opened last and is still open there, it has that paragraph's number, and its position is the number of characters since, or that plus eight for each control |
| BodyTokens.BreakConserves | app/layout_ops.py:540-547 | an accepted break conserves the whole sequence of characters with their shapes and of controls other than SECDEF and COLDEF, and moves exactly one SECDEF |
| BodyTokens.BreakColDefs | app/layout_ops.py:540-547 | an accepted break moves at most one COLDEF, and the other column definitions keep their order around it |
| BodyTokens.InsertReversed | app/layout_ops.py:623-674 | every accepted insert is an accepted delete in reverse, of section 1 + the SECDEFs of the common prefix |
| BodyTokens.InsertUndone | app/layout_ops.py:623-674 | any accepted delete of the section an accepted insert made gives the old body back token by token, except that one COLDEF at the break may come or go |
| BodyTokens.BreakDetermined | app/layout_ops.py:623-674 | two accepted deletes of the same section of one body leave the same body, one COLDEF at the break aside |
| BodyTokens.InsertedSecDef | app/layout_ops.py:1057-1070 | the index computed from the first difference is the new SECDEF's own place: it is the block's SECDEF, its copy form is that of the one before it, and all others keep their order |
| BodyTokens.SectionInsertPosition | app/layout_ops.py:1005-1046 | the planner accepts exactly when some cut is reached under a control-width reading and at every reached cut the nearest placed token on both sides is a character |
| BreakAcceptance.InteriorExactly | app/layout_ops.py:1026-1046 | a place is inside text exactly when the last character or control before it and the first one from it on are both characters |
| BodyTokens.CaretAgreement | app/layout_ops.py:595-613 | the token indexes the verifier accepts for a body caret are exactly the cuts the planner reaches for it |
| BodyTokens.PlannedSplitIsInterior | app/layout_ops.py:1049-1054 | a planned caret and an accepted break together mean the paragraph was split between two characters of its text |
| BodyTokens.SectionColDefs | app/layout_ops.py:1091-1105 | column definitions pass exactly when the smaller multiset is contained in the larger and at most one came (insert) or went (delete) |
| BodyLinear.WalkExactly | app/object_insert.py:516-560 | what each element becomes: each control of the listed kinds one token with its printed form, CHAR its characters with the shape of the run, TEXT a shape only, any other element an opening and a closing token around its children |
| BodyLinear.WalkChildren | app/object_insert.py:516-560 | children follow each other in order, each inside a run with the text behind it |
| BodyLinear.LinearLists | app/object_insert.py:516-560 | the tokens of a body list its SECDEFs in document order exactly when no control holds one inside it |
| BodyLinear.DocumentLists | app/object_insert.py:516-560 | for a document with all its SECDEFs in the body, the body tokens list the document's sections exactly when no control holds one |
| SectionEdits.InsertLeavesSectionsAlone | app/layout_ops.py:1073-1088 | for documents whose SECDEFs stand in the body outside controls, body and HEAD acceptance of an insert together: every other section, found at its shifted place, names what it named and it means the same |
| SectionEdits.InsertedSectionCopies | app/layout_ops.py:1073-1088 | the new section of an accepted insert means, reference by reference, what the split section means, and when one of the two SECDEFs is clean it is an exact copy apart from the bound references exactly when both are |
| SectionEdits.DeleteLeavesSectionsAlone | app/layout_ops.py:1128-1146 | for such documents, body and HEAD acceptance of a delete together (for section 1 with the empty delta): every surviving section names what it named and it means the same |
| SectionEdits.SectionSurvivesRun | app/layout_ops.py:1073-1146 | over any run of accepted section inserts and deletes, a section that is never deleted names at the end what it named at the start, and that still means the same definition |
| SavedPackage.DifferenceIsCanonical | app/hwpx_saved_proof.py:487-512 | the recursive comparison finds nothing exactly when the canonical trees are equal |
| SavedPackage.ApplyExact | app/hwpx_saved_proof.py:1034-1051 | the update of any trees, whatever their values, succeeds exactly when every selector is exact in both, if no spec disturbs a later one; for every two specs taken in order it does so exactly then |
| SavedPackage.BlankExact | app/hwpx_saved_proof.py:1034-1051 | blanking succeeds exactly when every selector is exact and then leaves the node-by-node erasure, if emptying no field changes a later selection; for every two specs taken in order it does so exactly then |
| HistoryDigest.TypedUpdate | app/hwpx_saved_proof.py:1099-1114 | where the comparison finds every volatile value typed, in its window and not going back, the update cannot fail if no spec disturbs a later one |
| HistoryDigest.TypedUpdateOfTwo | app/hwpx_saved_proof.py:1164-1168 | for any two specs with such values the update succeeds exactly when assigning the first leaves the second selecting the same places |
| SavedPackage.Compare | app/hwpx_saved_proof.py:1117-1189 | accepts exactly when order, comment and every member are admitted (typed values, windows, order in time and preview rules included), and each of its counts is the number of members with that verdict |
| PackageAcceptance.AcceptedExactly | app/hwpx_saved_proof.py:1117-1189 | packages with distinct members are accepted exactly when the members are the expected ones in order, the comment is the same and each member meets its own condition |
| PackageAcceptance.MemberExactly | app/hwpx_saved_proof.py:1137-1183 | a member is admitted exactly when its container entry kept every field not called volatile and, as the case may be, the rendered preview is valid under its own rule, the XML is kept, or the bytes are equal |
| PackageAcceptance.TypedExactly | app/hwpx_saved_proof.py:1099-1114 | a volatile value passes exactly when the one element with its tag and attribute values holds a UTC second on both sides, the before one within the call that wrote the before-package, the after one within the call that wrote the after-package, and not earlier |
| PackageAcceptance.AcceptedValues | app/hwpx_saved_proof.py:1099-1114 | in an accepted package every volatile value of a compared member is such a pair of moments |
| PackageAcceptance.ApplyExactly | app/hwpx_saved_proof.py:1034-1051 | where no selector looks at a volatile attribute, the update succeeds without a remaining difference exactly when every selector has its one element on both sides and the trees agree in everything but the volatile fields |
| PackageAcceptance.DifferenceExactly | app/hwpx_saved_proof.py:487-506 | the comparison finds nothing exactly when tags, attributes, texts, tails and children agree, absent and empty text being the same |
| PackageAcceptance.LaterCallAccepted | app/hwpx_saved_proof.py:1099-1189 | a timestamp written by one call and a later one written by another are accepted, whether or not the calls overlap |
| PackageAcceptance.DisjointCallsAccepted | app/hwpx_saved_proof.py:1099-1189 | a concrete pair of packages whose calls ran 100 seconds apart, accepted |
| UtcSeconds.PrintedReads | app/hwpx_saved_proof.py:1079-1086 | every moment of the calendar, printed as a package prints it, is read back as its count of seconds |
| UtcSeconds.OnlyPrintedReads | app/hwpx_saved_proof.py:1079-1086 | and no other text is read |
| UtcSeconds.DayCounts | app/hwpx_saved_proof.py:1079-1086 | the count is that of the Gregorian calendar: each day is one more than the day before |
| SavedPackage.TallyPartition | app/hwpx_saved_proof.py:1117-1189 | identical, infoset-equal, regenerated and refused members add up to all members |
| HistoryDigest.AcceptedDigests | app/hwpx_saved_proof.py:1192-1254 | packages the saved proof accepts have equal digests exactly when in every member each volatile field stands at the same places before and after; they do when each selector is disturbed by one spec at most; given equal container fields and a profile whose blanking keeps its promise |
| DigestsApart.AcceptedDigestsDiffer | app/hwpx_saved_proof.py:1192-1254 | two packages with rising timestamps, for any three of them, that the saved proof accepts and whose digests can be taken and differ |
| LineReflow.ExactDecimalCanonical | app/hwpx_saved_proof.py:83 | an accepted attribute text is the printed form of its value, so writing the value back restores the text |
| LineReflow.ApplyReflow | app/hwpx_saved_proof.py:866-897 | refuses exactly when place, line count, anchors or bounds disagree; otherwise the expected section carries the actual lines and nothing else changed |
| PictureLayout.ExpectPicture | app/hwpx_saved_proof.py:905-962 | the expected section of a picture layout or crop at any depth is the before-section with the requested attributes changed and, under a scope of that paragraph, the admitted actual lines; a scope of another request or paragraph, a missing element or attribute and lines that are not admitted are refused |
| PictureRequest.RequestedExactly | app/hwpx_saved_proof.py:905-962 | the expected section is the before-section with one picture replaced by the requested one and nothing else; refused exactly when the picture is not there, or a child or attribute to set is missing or ambiguous |
| PictureRequest.LayoutExactly | app/hwpx_saved_proof.py:922-937 | attribute by attribute what a layout request leaves at the picture: treatAsChar, horzOffset and vertOffset of its only pos child, textWrap SQUARE, textFlow only where the after-copy materialized it, everything else as it was |
| PictureRequest.CropExactly | app/hwpx_saved_proof.py:940-943 | a crop sets left, top, right and bottom of the only imgClip child and nothing else |
| PictureRequest.ExpectedExactly | app/hwpx_saved_proof.py:905-962 | without a scope that section is expected as it is; with one, only for a layout request of the bound paragraph and with the admitted actual lines written in |
| PictureRequest.AdmittedExactly | app/hwpx_saved_proof.py:866-897 | a reflow is admitted exactly when the actual paragraph prints as many well-formed lines as were bound, each in its box, and every attribute outside the declared metrics has its bound value |
| PictureRequest.BindsExactly | app/hwpx_saved_proof.py:839-863 | a scope is bound exactly to the paragraph of a picture in a run of the section, with that paragraph's printed lines, each in its box, the section's geometry and none but the five line metrics |
| PictureRequest.LinesExactly | app/hwpx_saved_proof.py:745-773 | a paragraph's line cache reads as given lines exactly when its only line array prints them, nine attributes each, in range, and holds nothing else |
| PictureRequest.GeometryExactly | app/hwpx_saved_proof.py:776-800 | a section has a geometry exactly when its one page is portrait with one set of margins, its columns are described and single, and the text width and paper height are positive |
| PictureLayout.ReflowFrame | app/hwpx_saved_proof.py:745-962 | an accepted package whose expectation is the before-section with the requested picture change and the lines of a scope bound before the edit: putting the old lines back into the after-section gives exactly before-plus-request; line count, order and every attribute outside the admitted fields are unchanged and every line is within bounds |
| PathLocks.StepKeeps | app/atomic_json.py:18-253 | every step of any thread of any process, crashes included, keeps the registry counts, lock ownership, file locks and the disk as a replay of the commits |
| PathLocks.ReachableStates | app/atomic_json.py:186-253 | in every reachable state two threads are never inside one path of a process, at most one call holds a path's file lock, and the files are those of the committed operations run one after another: no update is lost |
| PathLocks.FilesWhole | app/atomic_json.py:117-160 | a path's file only ever holds what it held at the start or the whole result of a logged operation on what was there before it |
| PathLocks.SuccessfulCallsLogged | app/atomic_json.py:186-253 | in every reachable state a call that returned is in the log exactly once with its path and operation, one that raised is there exactly when it had replaced its file, and the files are the logged operations run one after another |
| CallAnswers.CallsAnswered | app/atomic_json.py:163-253 | in every reachable state: an update that returned gave back what its updater made of what the earlier commits had left, and that is what it committed; a read that returned gave back what the file held at some point during the call |
| CallsAlone.ReplacesAlone | app/atomic_json.py:117-253 | a write or update with nothing in its way runs through, leaves its object in the file (an update what its updater makes of the file's object, or of the default where there is no file), returns it, and gives every lock back |
| CallsAlone.ReadsAlone | app/atomic_json.py:163-183 | a read with nothing in its way returns what the file holds, or nothing where there is none, and leaves it alone |
| CallsAlone.AcquireExactly | app/atomic_json.py:18-41 | in every state the invariant allows, a waiting call gets the thread lock exactly when every call inside that path in that process is of its own thread |
| CallsAlone.AcquireFileExactly | app/atomic_json.py:83-114 | and then the file lock exactly when no call of any process holds that of the path |
| CallsAlone.BodyExactly | app/atomic_json.py:186-253 | under both locks an update begins exactly when the file is absent or whole, and starts from the file's object or the default; a write always begins |
| PathLocks.LockTable.Enter | app/atomic_json.py:18-32 | joining a path shares its lock with the current users and counts one more; counts stay right and different paths keep different locks |
| PathLocks.LockTable.Leave | app/atomic_json.py:33-41 | leaving counts one down and removes the entry with its last user; counts stay right and different paths keep different locks |
| EventLog.RotatedReads | app/interactive_session_manager.py:128-137 | a rotation drops exactly the oldest generation from what is read oldest to newest |
| EventLog.RunReadsSuffix | app/interactive_session_manager.py:112-139 | after any sequence of appends the files read oldest to newest are exactly a suffix of everything appended, in order |
| EventLog.NewestSurvives | app/interactive_session_manager.py:112-139 | the newest record is never among the dropped ones |
| EventLog.RunBounded | app/interactive_session_manager.py:112-139 | every one of the six files stays at or below 65536 bytes |
| EventLog.EventFiles.Rotate | app/interactive_session_manager.py:129-137 | the loop that unlinks and renames in place shifts every file by one number and overwrites none |
| EventLog.EventFiles.AppendLine | app/interactive_session_manager.py:112-139 | an append writes the line, or the stub for an oversize one, after rotating when it would not fit |
| EventLog.AppendExactly | app/interactive_session_manager.py:126-139 | a line that fits is added to the file as it is; one that does not starts a new file, each file takes the next number and the fifth is lost |
| EventLog.LinesKept | app/interactive_session_manager.py:112-139 | a record is lost only after more than three full files of later records: as long as anything was dropped, what can be read exceeds 196608 bytes |
| Sessions.ReapKeeps | app/interactive_session_manager.py:644-697 | the reaper never removes the active, a live, a reconcilable or an evidence-holding session and changes no other |
| Sessions.ReapTakesOldest | app/interactive_session_manager.py:683-697 | whatever the reaper removes is settled and comes before every settled session it keeps, unless that one could not be removed |
| Sessions.ReapBounds | app/interactive_session_manager.py:683-697 | afterwards no more settled sessions are left than the limit plus the failed removals |
| SessionRuns.StepExact | app/interactive_session_manager.py:1223-1486 | each lock section of each operation keeps "no session but the one that may be live is live" (the one the active record names; during an open none, then the one it stored) exactly under its own condition |
| Sessions.AdmissionBefore | app/interactive_session_manager.py:1302-1324 | an open that nothing interrupts succeeds, or breaks off after its save, exactly when the id is not empty, no active session was live before the cleanup and the id is free after it |
| SessionRuns.AtMostOneLive | app/interactive_session_manager.py:1223-1486 | after any interleaving of such sections at most one session is live, and with no open or close under way it is the one the active record names |
| SessionRuns.GentleCallers | app/interactive_session_manager.py:1223-1486 | however their calls interleave, callers that give no live state to a terminal or unknown session nor to a close leave at most one session live, if no open breaks off after its save |
| SessionRuns.UpdateExact | app/interactive_session_manager.py:1328-1353 | an update that gives a state is harmless whatever open or close is under way exactly when the state is terminal or the session is live |
| SessionRuns.UpdateDuringOpen | app/interactive_session_manager.py:1302-1324 | the concrete interleaving: an update makes a failed session ready between the check and the save of an open, and two sessions are live |
| SessionRuns.OpenInOnePiece | app/interactive_session_manager.py:1223-1326 | an open whose lock sections follow each other has the effect of the whole modelled operation |
| SessionRuns.CloseInOnePiece | app/interactive_session_manager.py:1387-1484 | so has a close |
| SessionRuns.SectionsInOnePiece | app/interactive_session_manager.py:1328-1486 | a command that is no close, an update and a save are one section each, with the effect of the operation, whatever open or close is under way |
| Sessions.BrokenOpenAdmitsSecond | app/interactive_session_manager.py:1302-1324 | an open that breaks off before its active-record write lets the next open create a second live session |
| Sessions.TwoLiveFromNothing | app/interactive_session_manager.py:1302-1324 | the concrete run from an empty store |
| SessionRuns.TerminalForGood | app/interactive_session_manager.py:1446-1456 | in every run a settled session stays settled unless it is removed or a caller names a live state for it |
| Sessions.TerminalAbsorbs | app/interactive_session_manager.py:1446-1456 | a command that names no state leaves a settled session settled, and can only make it failed or closed |
| SessionRuns.StepGeneration | app/interactive_session_manager.py:1130-1161 | in any interleaving every persisted mutation raises the session's generation by exactly one and nothing else changes it |
| SessionRuns.StaleRefused | app/interactive_session_manager.py:1136-1143 | after any run that did not remove the session, a draft carrying the generation it was read at is accepted exactly when nobody mutated the session meanwhile |
| Sessions.ReopenRestarts | app/interactive_session_manager.py:1310-1313 | a reopened id starts at generation 1 again, so a draft of generation 1 is accepted |
| SessionRuns.StaleExact | app/interactive_session_manager.py:1130-1161 | after any run, removals and reopenings included, a draft is refused as stale exactly when its id is stored and has earned another generation than the draft carries |
| SessionRuns.OldDraftOverwrites | app/interactive_session_manager.py:1136-1143 | the concrete run: opened, read, closed, removed, opened again, and the draft of the first life is accepted over the second |
| Sessions.SessionManager.SaveLocked | app/interactive_session_manager.py:1130-1161 | refuses a stale draft without writing, otherwise stores it one generation up |
| Sessions.SessionManager.ReapSettled | app/interactive_session_manager.py:644-697 | collecting, sorting and removing takes exactly the oldest excess and reports how many went |
| Sessions.SessionManager.OpenSession | app/interactive_session_manager.py:1223-1326 | the admission steps, uninterrupted, with the pending marks of the metadata and a possible break before the active-record write, have exactly the modelled effect |
| Sessions.SessionManager.UpdateSession | app/interactive_session_manager.py:1328-1353 | an update stores the changed copy one generation up and touches no other session |
| Sessions.SessionManager.RecordCommand | app/interactive_session_manager.py:1359-1486 | a recorded command stores its outcome state one generation up and clears the active record only on closing the active session |
| SessionEffects.RecordExactly | app/interactive_session_manager.py:1359-1486 | field by field what a recorded command does: failed if it failed, else the named state, else closed for a close, else ready for a live session and unchanged for a settled one; one generation up; the active record cleared only on closing the active session; other sessions untouched |
| SessionEffects.UpdateExactly | app/interactive_session_manager.py:1328-1353 | field by field what an update does |
| SessionEffects.SaveExactly | app/interactive_session_manager.py:1130-1181 | a save is refused for a blank id, stale exactly for another generation than the stored one, and otherwise stored one generation up, a new session at 1 |
| SessionEffects.ReapExactly | app/interactive_session_manager.py:644-697 | the reaper takes a session exactly when it is settled, inactive, without pending marks or evidence, can be removed, and is among the oldest of such sessions beyond the limit |
| SessionEffects.OpenExactly | app/interactive_session_manager.py:1302-1324 | after sweeping and reaping to 100, an open is refused for a blank id, a live active session or a taken id, in that order, and else stores the new session at generation 1 and makes it the active one |
| CellAddress.ColumnName | app/local_cli_document.py:54-60 | the digit loop prints the bijective base-26 name of the column |
| CellAddress.LettersRead | app/local_cli_document.py:54-60 | reading a printed column gives its number, for columns of any length |
| CellAddress.ColumnPrints | app/edit_ops.py:525-527 | every run of letters is the printed form of its value |
| CellAddress.CellAddrToRef | app/edit_ops.py:517-535 | the first parser accepts exactly letters followed by digits and returns their values |
| CellAddress.NormalizeCellAddr | app/local_cli_service_support.py:133-144 | the second parser accepts exactly those whose row has no leading zero, and a list exactly when it is two naturals, which it returns |
| CellAddress.PrintedParses | app/local_cli_document.py:63-66 | printing any cell and parsing it back is the identity with both parsers |
| CellAddress.ParsedPrints | app/edit_ops.py:517-535 | printing a parsed address with a row gives its normal form |
| CellAddress.ParsersAgree | app/local_cli_service_support.py:133-144 | the parsers agree on every address whose row has no leading zero and the second refuses every other string |
| CellAddress.NormalizedStays | app/local_cli_service_support.py:133-144 | whatever the second parser returns is two indices from zero; handed in again, or printed and parsed, they come back |
| CellAddress.MoveToCellScoped | app/edit_ops.py:998-1053 | the loop with its visited set ends as the step-by-step navigation does, against any editor |
| CellAddress.NavigateBounded | app/edit_ops.py:998-1053 | against any editor at most max_steps moves are made, and success ends on the target having visited no address twice |
| CellAddress.GridIsNavigated | app/edit_ops.py:998-1053 | on a merge-free grid the target is reached exactly when it is within max_steps Manhattan distance, in that many moves |
| CellAddress.GridRoute | app/edit_ops.py:998-1053 | on such a grid the caret first goes down or up to the row and then along it |
| CellAddress.NoShorterWay | app/edit_ops.py:998-1053 | no run of moves is shorter than the Manhattan distance, so the way found is a shortest one |
| NumberingProtocol.ProofReadsProve | app/local_cli_bundle_numbering.py:374-395 | the restoration's reads, in their order, prove evidence, text, controls, caret and selection back |
| NumberingProtocol.GuardedStep.ReadProtection | app/local_cli_bundle_numbering.py:113-139 | evidence is returned exactly when it is usable: plain, exact, valid, placed, complete and restarting; unusable or incomplete evidence is noted only before navigation |
| NumberingProtocol.GuardedStep.RestoreProvenRefusal | app/local_cli_bundle_numbering.py:362-395 | returns only after caret, selection and evidence were read again and found back, with no call after a failed one |
| NumberingProtocol.GuardedStep.GiveBack | app/local_cli_bundle_numbering.py:36-52 | returns only with caret and selection read back; whatever fails is never reported as a refusal |
| NumberingProtocol.GuardedStep.NoChangeProof | app/local_cli_bundle_numbering.py:55-62 | succeeds exactly when the evidence read equals the first one; a refusal while proving is not a refusal |
| NumberingProtocol.GuardedStep.Apply | app/local_cli_bundle_numbering.py:330-506 | against any editor: a refusal escapes only if no mutator was announced and the state was proven back or nothing moved; a mutator is announced, and success reported, only over whole evidence and with the text found on the expected page; after an announced mutator every ordinary exception says the change may persist, a lost caret after complete success aside; no call follows an untrusted failure; signals pass unchanged; with an editor that keeps still, refusals and success are reported as such; the two clean refusals leave exactly when the answers to the first calls say so: evidence that returned but is incomplete, or too many controls with place and evidence read again alike |
| NumberingProtocol.RestoredExactly | app/local_cli_bundle_numbering.py:362-395 | what a proven restoration shows, call by call |
| NumberingProtocol.EvidenceClasses | app/local_cli_bundle_numbering.py:113-139 | which answers serve as evidence and which are merely incomplete |
| NumberingProtocol.QuietOutcomes | app/local_cli_bundle_numbering.py:330-506 | concrete ends with an editor that keeps still: the text is not there, the native call refuses for what it found, it succeeds |
| NumberingProtocol.CaretCanBeLost | app/local_cli_bundle_numbering.py:481-492 | a concrete editor with which a mutator was announced and yet a plain runtime error leaves the step |

## Left out

- FastAPI routes, uploads, viewer, polling client, settings, auth, log redaction, profile schema validation: I/O or single-branch checks.
- XML, ZIP, PNG and hash computation: parsed trees, member maps and hash equality are given; a hash is its data.
- Reason strings, reason codes, paths in messages, head summaries: only whether a reason was given is modelled.
- Signatures.SignatureCached: nodes are identified by their path in one tree, standing for `id(element)`; reuse of an id after collection is not modelled.
- Signatures.ReprDecodes: which characters repr prints unescaped is approximated by ranges; the theorem does not depend on the exact set, as every other character is escaped by its code.
- Text.DecimalRoundTrip: only ASCII digits and letters count as digits and letters; Python's `\d`, `int`, `upper` and `lower` accept more of Unicode.
- References.DefinitionReferences: referrers are told apart by kind and index, not by their message text; a MemoShape attribute is read in sorted attribute order.
- SectionDefinitions.DeleteKeepsReferenced: a SECDEF attribute whose name contains MemoShape, other than MemoShapeId, is not a reference, as in the code; the documentation there speaks of any other attribute.
- BodyTokens.SectionInsertReasons: the longer body is required to be at least as long as the shorter one, which the indexes of the source assume.
- BodyTokens.SectionColDefs: of the document comparison around the token check only this part is modelled; PAGEDEF lists, counts and control signatures are not.
- SectionEdits.InsertLeavesSectionsAlone: documents with a SECDEF outside the body or inside a control are outside; there the tokens do not list the sections.
- GrowthRuns.RunGrown: runs with removed or created definitions are not one accepted change, as a definition may come and go; per section they are covered by SectionEdits.SectionSurvivesRun.
- PictureLayout.ReflowFrame: members that may be regenerated or hold volatile values are outside; the profile checks allow neither for a body section (`app/hwpx_saved_proof.py:209-237`).
- The `columns_new` body rule, page setup, columns and hanging indent: their arithmetic and single comparisons add only easy members.
- SavedPackage.Compare: XML parsing, the image library and the text codecs are given functions; moments are whole seconds, windows microseconds.
- HistoryDigest.AcceptedDigests: profiles in which emptying a field changes a later selection are outside, as their digest cannot be taken of every accepted package (BlankExact).
- HistoryDigest.AcceptedDigests: elements named like the printed form of a comment or instruction are excluded; XML names never are.
- LineReflow.ApplyReflow: attributes set on a shared tree become an updated copy, so aliasing between the expected tree and others is not captured; the same holds for the volatile values.
- PictureLayout.ExpectPicture: the replacement request, the caret fields of `expect` and the bridge between HWPML and HWPX pictures are not modelled.
- PathLocks.ReachableStates: fairness and lock timeouts are not modelled, and a thread's identity is never reused by another process.
- SessionRuns.StepExact: one step is one section under the state lock, or one read or write of the active record; merged dictionaries appear as the resulting runtime marks, and fields without influence on lifecycle, generation or reaping are not modelled.
- Sessions.SessionManager.OpenSession: a stored generation that is not a natural number, which the source refuses, cannot occur in the model.
- EventLog.EventFiles.AppendLine: serialization and the hash in the stub are given; a crash between two renames is not modelled.
- NumberingProtocol.GuardedStep.Apply: the finder and the native numbering call are oracles with the hooks the source gives them; the page-number, paragraph and format steps repeat the same give-back pattern.
- `local_cli_cell_margins.py` and the other bundle mixins: the same outcome pattern over helpers outside the core.
