# AChecklist data model in Dafny

This project models the data core of the AChecklist Swift library: an
**item → section → checklist** hierarchy in which each level has a derived
tri-state status (`checked`, `partiallyChecked`, `unchecked`).

- An item is checked exactly when it carries a `lastChecked` time.
- A section's status aggregates its items. A section with no items reads `checked`.
- A checklist's status is computed over *groups* of sections. Every
  non-exclusive section forms a group on its own. Every maximal run of
  adjacent `isMutualExclusion` sections forms one group, which is complete
  when exactly one member reads `checked`.

The checklist also offers the status setter, `resetAllSections`,
`removeSection(id:)`, `checkMutualExclusion(for:)` and
`handleMutualExclusionSelection(for:)`.

Everything is modelled as immutable datatypes and pure functions. The Swift
property setters and `mutating` methods become functions that return the
updated value. The wall clock (`Date()`) and `UUID()` are parameters:
`now: int` for time and `id: int` for identifiers.

Files:

| file | module | contents |
|---|---|---|
| `options.dfy` | `Options` | `Option`, for Swift's `T?` |
| `status.dfy` | `Statuses` | the tri-state `Status` |
| `item.dfy` | `Items` | `Item`, the `isChecked` getter and setter, `toggle`, `init`, `detailIsEmpty` |
| `section.dfy` | `Sections` | `Section`, the status getter and setter, `init` |
| `grouping.dfy` | `Grouping` | the grouping scan of the checklist status getter, with a run-by-run reference definition and a positional notion of maximal run |
| `checklist.dfy` | `Checklists` | `Checklist`, the status getter and setter, `resetAllSections`, `removeSection` |
| `exclusion.dfy` | `MutualExclusion` | `checkMutualExclusion` and `handleMutualExclusionSelection` as written, and the versions their doc comments describe |
| `example.dfy` | `Examples` | the library's `example` checklist and small layouts used as concrete checks |

The checklist status is proved equal to a positional characterisation:

- `checked` ⇔ every non-exclusive section reads `checked`, and every maximal
  exclusive run `sections[i..j]` has exactly one member reading `checked`;
- `unchecked` ⇔ not `checked`, and no non-exclusive section has left
  `unchecked`, and no exclusive section reads fully `checked`. A run
  whose members are only partially checked does not count as started.

Where the code and a natural reading of its behaviour differ, the model
follows the code:

- An empty section reads `checked`.
- So a reset makes the checklist read `unchecked` only when it has sections
  and every section has items (`Checklists.ResetStatus`).
- Assigning `.checked` to a checklist checks every member of an exclusive
  run. The checklist then reads `partiallyChecked` whenever some run has
  more than one member (`Checklists.SetCheckedStatus`).
- The two mutual-exclusion operations act on the first exclusive run of the
  list. See "## Findings".

## Model

| member | source | states |
|---|---|---|
| Items.Check | Sources/AChecklist/Models/AChecklistItem.swift:19-21 | `isChecked = true` leaves the item checked with `lastChecked = now` and `currentDate = now + 1`, even if it was already checked; id, title and detail are unchanged |
| Items.Uncheck | Sources/AChecklist/Models/AChecklistItem.swift:22-24 | `isChecked = false` leaves the item unchecked and does not touch `currentDate`, id, title or detail |
| Items.SetChecked | Sources/AChecklist/Models/AChecklistItem.swift:18-25 | after the setter, `isChecked` equals the assigned value; `true` stamps `now`, `false` makes `lastChecked` absent; id, title and detail are kept |
| Items.Toggle | Sources/AChecklist/Models/AChecklistItem.swift:28-36 | toggling flips `isChecked`; an unchecked item gets `lastChecked = now`, a checked one loses it; `currentDate` is always refreshed; id, title and detail are kept |
| Items.ToggleIsNegatedSet | Sources/AChecklist/Models/AChecklistItem.swift:18-36 | toggle agrees with assigning the negated `isChecked`; the only difference is that toggling a checked item also refreshes `currentDate` |
| Items.ToggleTwice | Sources/AChecklist/Models/AChecklistItem.swift:28-36 | two toggles restore `isChecked`; an item that started checked ends with the second clock reading, not its original stamp |
| Items.NewItem | Sources/AChecklist/Models/AChecklistItem.swift:38-43 | a new item keeps the given title and detail and is checked exactly when an initial `lastChecked` is passed |
| Items.NewPlainItem | Sources/AChecklist/Models/AChecklistItem.swift:38-43 | with the default arguments the detail is `""` and the item is unchecked |
| Items.Trim | Sources/AChecklist/Models/AChecklistItem.swift:11 | trimming yields a middle slice of the string; everything cut off on either side is whitespace; the slice neither starts nor ends with whitespace |
| Items.DetailIsEmptyIffAllSpace | Sources/AChecklist/Models/AChecklistItem.swift:10-12 | `detailIsEmpty` holds exactly when the detail is all whitespace, so in particular for an empty detail |
| Sections.CheckedCountFull | Sources/AChecklist/Models/AChecklistSection.swift:10-12 | the checked-item count equals the item count exactly when every item is checked, including the empty list |
| Sections.CheckedCountZero | Sources/AChecklist/Models/AChecklistSection.swift:13-17 | the checked-item count is zero exactly when no item is checked |
| Sections.SectionStatusMeaning | Sources/AChecklist/Models/AChecklistSection.swift:9-18 | status is `checked` iff all items are checked (so an empty section is `checked`); `partiallyChecked` iff some but not all are; `unchecked` iff there are items and none is checked |
| Sections.CheckAll | Sources/AChecklist/Models/AChecklistSection.swift:21-24 | assigning `.checked` stamps every item with `now`; the section's id, name, flag, item count and order, and each item's id, title and detail are kept |
| Sections.UncheckAll | Sources/AChecklist/Models/AChecklistSection.swift:27-30 | assigning `.unchecked` clears every item's `lastChecked` and changes nothing else |
| Sections.SetStatus | Sources/AChecklist/Models/AChecklistSection.swift:19-32 | the setter keeps the section's shape; `.partiallyChecked` leaves the section unchanged; the other two force every item to that extreme |
| Sections.CheckAllReadsChecked | Sources/AChecklist/Models/AChecklistSection.swift:9-24 | after assigning `.checked` the section reads `checked` |
| Sections.UncheckAllReadsUnchecked | Sources/AChecklist/Models/AChecklistSection.swift:9-30 | after assigning `.unchecked` the section reads `unchecked` if it has items, and `checked` if it has none |
| Sections.UncheckAllIdempotent | Sources/AChecklist/Models/AChecklistSection.swift:27-30 | assigning `.unchecked` twice gives the same section as assigning it once |
| Sections.NewSection | Sources/AChecklist/Models/AChecklistSection.swift:35-39 | a new section keeps the given name and items and is not exclusive |
| Grouping.GroupsByRun | Sources/AChecklist/Models/AChecklist.swift:24-46 | reference grouping by whole runs: the groups concatenate to the sections; each is one non-exclusive section or a non-empty run of exclusive ones; no two runs are adjacent |
| Grouping.GroupsIsGroupsByRun | Sources/AChecklist/Models/AChecklist.swift:24-46 | the source's accumulator scan produces exactly the run-by-run grouping |
| Grouping.GroupsPartition | Sources/AChecklist/Models/AChecklist.swift:24-46 | the scan's groups partition the sections in order into singletons and maximal exclusive runs |
| Checklists.CountCheckedPositive | Sources/AChecklist/Models/AChecklist.swift:65-71 | a group's `checkedCount` is positive exactly when some member reads `checked` |
| Checklists.AllCompleteByRun | Sources/AChecklist/Models/AChecklist.swift:49-73 | every group is complete iff every non-exclusive section reads `checked` and every maximal exclusive run has exactly one member reading `checked` |
| Checklists.AnyStartedByRun | Sources/AChecklist/Models/AChecklist.swift:50-72 | some group has started iff some non-exclusive section is not `unchecked` or some exclusive section reads fully `checked` |
| Checklists.ChecklistStatusMeaning | Sources/AChecklist/Models/AChecklist.swift:21-85 | the checklist status in positional terms: `checked` iff complete; `partiallyChecked` iff not complete and started; `unchecked` iff neither |
| Checklists.EmptyChecklistIsChecked | Sources/AChecklist/Models/AChecklist.swift:49-78 | a checklist without sections reads `checked` |
| Checklists.SetChecklistStatus | Sources/AChecklist/Models/AChecklist.swift:86-102 | the setter keeps section order, ids, names, flags and item identities; `.partiallyChecked` is a no-op; `.checked` stamps every item of every section; `.unchecked` clears every `lastChecked` |
| Checklists.SetCheckedStatus | Sources/AChecklist/Models/AChecklist.swift:88-92 | after assigning `.checked` the checklist reads `checked` iff every maximal exclusive run has one member, and `partiallyChecked` otherwise |
| Checklists.ResetAllSections | Sources/AChecklist/Models/AChecklist.swift:172-176 | a reset clears every item's `lastChecked` in every section and changes nothing else |
| Checklists.ResetIsSetUnchecked | Sources/AChecklist/Models/AChecklist.swift:172-176 | a reset gives the same checklist as assigning `status = .unchecked` |
| Checklists.ResetStatus | Sources/AChecklist/Models/AChecklist.swift:172-176 | after a reset each section reads `unchecked`, or `checked` if it has no items; the checklist reads `unchecked` iff it has sections and all of them have items |
| Checklists.RemoveId | Sources/AChecklist/Models/AChecklist.swift:13-17 | the remaining sections are exactly those whose id differs; the length drops by the number of sections with that id |
| Checklists.RemoveIdConcat | Sources/AChecklist/Models/AChecklist.swift:13-17 | removal works piecewise over concatenation, so the kept sections stay in their original order |
| Checklists.RemoveIdIdempotent | Sources/AChecklist/Models/AChecklist.swift:13-17 | removing the same id twice is the same as removing it once |
| Checklists.RemoveSection | Sources/AChecklist/Models/AChecklist.swift:13-17 | `removeSection(id:)` keeps the checklist's id and name and exactly the sections with another id |
| MutualExclusion.CollectRunMeaning | Sources/AChecklist/Models/AChecklist.swift:145-161 | the collecting loop gathers exactly the first maximal exclusive run of the list, whichever run the argument is in |
| MutualExclusion.AnyActiveOther | Sources/AChecklist/Models/AChecklist.swift:164-166 | the `contains` test holds iff some collected section with another id is not `unchecked` |
| MutualExclusion.CheckMutualExclusion | Sources/AChecklist/Models/AChecklist.swift:136-169 | a non-exclusive argument gives `(false, false)`; otherwise both answers are equal, and true iff some section of the first exclusive run, with an id other than the argument's, is not `unchecked` |
| MutualExclusion.ResetScanMeaning | Sources/AChecklist/Models/AChecklist.swift:186-202 | the reset loop resets exactly the sections of the first exclusive run whose id differs from the selection's, and leaves every other section as it was |
| MutualExclusion.HandleMutualExclusionSelection | Sources/AChecklist/Models/AChecklist.swift:180-203 | a no-op unless the argument is exclusive and its own status is not `unchecked`; otherwise the first exclusive run is reset except for the argument's id, and nothing else changes |
| MutualExclusion.ResetOwnRunMeaning | Sources/AChecklist/Models/AChecklist.swift:178-185 | the run-by-run reset touches exactly the exclusive sections, other than the selected id, whose own run holds the selected id |
| MutualExclusion.HandleSelectionInOwnRun | Sources/AChecklist/Models/AChecklist.swift:178-185 | the selection handler as its doc comment describes it: same guard, then only the selected section's own run is reset |
| MutualExclusion.ActiveInOwnRunMeaning | Sources/AChecklist/Models/AChecklist.swift:133-144 | the run-by-run query is true iff a run holding the id has another member that is not `unchecked` |
| MutualExclusion.CheckInOwnRun | Sources/AChecklist/Models/AChecklist.swift:133-144 | the query as its doc comment describes it: `(false, false)` for a non-exclusive argument, otherwise two equal answers about the argument's own run |
| MutualExclusion.HandleAsWrittenMatchesIntent | Sources/AChecklist/Models/AChecklist.swift:185-202 | when the selected id occurs only in the first exclusive run, the handler as written equals the described one |
| MutualExclusion.CheckAsWrittenMatchesIntent | Sources/AChecklist/Models/AChecklist.swift:144-161 | when the queried id occurs only in the first exclusive run, the query as written equals the described one |
| Examples.LayoutGroups | Sources/AChecklist/Models/AChecklist.swift:24-46 | eight sections flagged like the example, with sections 4 to 6 exclusive, group as [1], [2], [3], [4, 5, 6], [7], [8] |
| Examples.ExampleGroups | Sources/AChecklist/Models/AChecklist.swift:207-288 | the `example` checklist has six groups, the fourth being the exclusive run of sections 4 to 6 |
| Examples.ExampleStatus | Sources/AChecklist/Models/AChecklist.swift:219-229 | the `example` checklist, whose section 2 has one pre-checked item, reads `partiallyChecked` |
| Examples.OneCheckedInRunCompletes | Sources/AChecklist/Models/AChecklist.swift:63-78 | [A, B*, C*, D*, E] with A, C and E checked reads `checked` |
| Examples.TwoCheckedInRunIsPartial | Sources/AChecklist/Models/AChecklist.swift:63-84 | the same layout with two run members checked reads `partiallyChecked` |
| Examples.SelectionResetsSiblings | Sources/AChecklist/Models/AChecklist.swift:180-203 | selecting one of three checked exclusive sections resets the other two and leaves it and the trailing section alone |
| Examples.AsWrittenActsOnFirstRun | Sources/AChecklist/Models/AChecklist.swift:144-202 | with runs [E1] and [E2] split by a normal section, selecting E2 resets E1, and querying E2 reports an active sibling |
| Examples.OwnRunLeavesOtherRunsAlone | Sources/AChecklist/Models/AChecklist.swift:178-185 | on the same checklist the described handler changes nothing, and the described query reports no active sibling |

## Left out

- JSON decoding `init?(data:)` (Sources/AChecklist/Models/AChecklist.swift:317-326) and the holder protocol's `checklist` property (Sources/AChecklist/Models/AChecklistHolderProtocol.swift:11-18) are left out. They rely on Foundation's opaque JSON coder, so no round trip can be stated.
- `toEncryptedData` (Sources/AChecklist/Models/AChecklist.swift:124-131) is left out. It uses CryptoKit AES-GCM with a freshly generated random key.
- `statusColor` and `systemImageName` are left out: they are presentation only.
- The SwiftUI views and `I18n.swift` are left out. They only read and call the model.
- `mutualExclusionExplanation` is left out. It is built from localized strings and `createRandom`, which are not part of this model.
- `init(name:sections:)` of the checklist has no separate member. With the id passed in, it is the `Checklist` datatype constructor.
- `UUID()` and `Date()` are parameters. `Date(timeIntervalSinceNow: 1)` is modelled as `now + 1`, using the same clock reading as `Date()`.
- The whitespace set `.whitespacesAndNewlines` is a parameter `isSpace: char -> bool` and not a fixed Unicode table.
- The `isMutualExclusion` property is not declared in AChecklistSection.swift, although AChecklist.swift and the edit view use it. It is modelled as a `Section` field. `NewSection` sets it to false.
- The `.mutating { $0.isMutualExclusion = true }` helper is represented by `Examples.Exclusive`.
- Item expiry (`expiresAfter`, `isExpired(now:)`) and item add/remove/reorder on a section are left out. The views refer to them, but the model files do not define them.
- The `Codable`, `Hashable`, `Identifiable` and `Sendable` conformances are left out.
- Items.Trim: states the slice-and-whitespace shape of `trimmingCharacters(in:)` only for the abstract whitespace predicate, not for Foundation's exact character set.
- Examples.ExampleGroups: states group sizes, the run flag and the run's first and last ids rather than the full group values. `Examples.LayoutGroups` states the full values for any list flagged like the example.

## Findings

| source | as written | input that shows it | evidently intended | confidence | as-written member | corrected member |
|---|---|---|---|---|---|---|
| Sources/AChecklist/Models/AChecklist.swift:185-202 | the loop enters "target group" mode at the first exclusive section anywhere in the list and stops at the next non-exclusive section, so it resets the first exclusive run whichever run the selection is in | sections [E1 checked, N, E2 checked], select E2: E1 is reset, and E2's own run is left as it was | reset the other members of the run that contains the selected section (doc comment at line 185) | high; not executed | Examples.AsWrittenActsOnFirstRun | MutualExclusion.HandleSelectionInOwnRun |
| Sources/AChecklist/Models/AChecklist.swift:144-161 | the collecting loop gathers the first exclusive run of the list, not the run of the queried section | same sections, query E2: the answer is `(true, true)` because E1 is checked, although E2 has no sibling | look for progress in the queried section's own run (doc comment at line 144) | high; not executed | Examples.AsWrittenActsOnFirstRun | MutualExclusion.CheckInOwnRun |

`MutualExclusion.HandleMutualExclusionSelection` and
`MutualExclusion.CheckMutualExclusion` model the code as written.
`MutualExclusion.HandleSelectionInOwnRun` and `MutualExclusion.CheckInOwnRun`
are the corrected versions. Their meaning is proved by
`MutualExclusion.ResetOwnRunMeaning` and `MutualExclusion.ActiveInOwnRunMeaning`,
and `Examples.OwnRunLeavesOtherRunsAlone` states their outcome on the same input.
`MutualExclusion.HandleAsWrittenMatchesIntent` and
`MutualExclusion.CheckAsWrittenMatchesIntent` show that the two readings
agree whenever the selected id occurs only in the first exclusive run. The
library's own `example` has a single run, which is such a case.
