# delegate, modelled in Dafny

delegate is a browser extension that records what a user clicks while a
"mission" runs. This project models its core and proves properties of
the model.

- **Content script** (`src/activityTracker.ts`, module `Tracker`).
  - It describes a clicked element as a lower-cased tag name plus its attributes.
  - It turns that description into a CSS selector, `tag[k="v"]...`.
  - When the plain selector is not unique, it walks up the ancestors. Each step prepends `ancestor:nth-child(i) `. It stops at the first selector with exactly one match, and backs the last step out when that step left no match.
  - The document is a tree of elements. `document.querySelectorAll` is a parameter that gives the number of matches, or fails.
- **Service worker's `EventHandler`** (`src/serviceWorkerUtils/eventHandler.ts`, module `Events`).
  - It is a class whose `db` handle is opened lazily.
  - It has one method per message: permissions, activities, and missions (add, start, end, current).
  - The active-tab query, script registration and `Date.now()` are inputs.
  - The proved invariant of the missions store: at most one mission is active, and only the active one can be running. It holds for the corrected deactivation, which also clears `running`. The source's deactivation breaks it; see Findings.
- **Record store** (`src/serviceWorkerUtils/database.ts`, modules `Store` and `Schema`).
  - Each IndexedDB object store is a class holding a key-to-record map and a key generator.
  - It implements `add`, `put`, `delete`, `clear`, `get`, index `get` and `getAll`, with unique indexes on `permissions.url` and `missions.name`.
  - The key generator follows section 2.11 of the Indexed Database API 3.0. It starts at 1, `add` fails once it passes 2^53, and `clear` does not reset it.
- **Timer helpers** (`src/utils/timer.ts`, module `Timer`).
  - `timerRegex` is a predicate on strings.
  - `calcTimerDiff` is a straight-line method over whole seconds.
- **Markup string** of `CodeSegment` (`src/components/Activity.tsx`, module `Markup`): `<name k="v" ...> </name>`.

Shared pieces:
- `Results` holds `Option` and `Result`, which stand for the `{ data, error }` values of `src/utils/index.ts`.
- `Entities` holds the stored records.
- `Strings` holds ASCII lower-casing, decimal rendering and `String.prototype.replace`.

Both serialisers get readers, and the proofs are round trips over them. A description whose names and values hold no `=`, `"`, `[` or space is recovered from its selector and from its markup. Without that restriction, quotes forge attributes. The lemmas `UnescapedQuoteForgesAttributes` and `UnescapedQuoteForgesMarkup` exhibit this.

## Model

| member | source | states |
|---|---|---|
| Store.RowsBelow | src/serviceWorkerUtils/database.ts:59-73 | the records with a key below n, each exactly once, in ascending key order |
| Store.FirstWithKey | src/serviceWorkerUtils/database.ts:91-106 | a row found has the key asked for; none found means no row has it |
| Store.ObjectStore.constructor | src/serviceWorkerUtils/database.ts:32-51 | a new store is empty, its generator is at 1, and it has the index it was created with |
| Store.ObjectStore.Add | src/serviceWorkerUtils/database.ts:108-122 | succeeds exactly when a key can be generated and the unique index is not violated; the new key is the old generator value, was unused, and holds only the new record; on ConstraintError nothing changes |
| Store.ObjectStore.Put | src/serviceWorkerUtils/database.ts:124-138 | replaces the record under its key and leaves others unchanged; raises the generator past an explicit key; fails with ConstraintError, changing nothing, exactly on an index clash |
| Store.ObjectStore.Delete | src/serviceWorkerUtils/database.ts:140-154 | resolves with the key it was given whether or not a record was there; that key is gone, and nothing else changes |
| Store.ObjectStore.Clear | src/serviceWorkerUtils/database.ts:156-170 | no records are left, and the key generator is unchanged |
| Store.ObjectStore.Get | src/serviceWorkerUtils/database.ts:75-89 | the record under the key, or nothing exactly when there is none |
| Store.ObjectStore.GetAll | src/serviceWorkerUtils/database.ts:59-73 | every record exactly once, in ascending key order |
| Store.ObjectStore.IndexGet | src/serviceWorkerUtils/database.ts:91-106 | NotFoundError for an unknown index; otherwise the record with that index key, found exactly when one exists, and it is that record |
| Store.GeneratedKeyIsFresh | src/serviceWorkerUtils/database.ts:32-35 | the next generated key differs from every key in use |
| Store.DuplicateKeyClashes | src/serviceWorkerUtils/database.ts:36-51 | adding a record whose unique key is already used is a clash |
| Schema.Database.constructor | src/serviceWorkerUtils/database.ts:28-52 | the three stores with their indexes ("url" and "name" unique, none on "activites"), all empty |
| Schema.Database.Connect | src/serviceWorkerUtils/database.ts:17-26 | the handle is assigned exactly when the open succeeds; store contents are untouched |
| Schema.NamesAndUrlsUnique | src/serviceWorkerUtils/database.ts:36-51 | in a valid database no two missions share a name and no two permissions share a URL |
| Events.DeactivateAllBut | src/serviceWorkerUtils/eventHandler.ts:251-257 | same keys; the kept mission is unchanged; every other mission is deactivated (corrected deactivation: `running` is cleared too) |
| Events.FirstActive | src/serviceWorkerUtils/eventHandler.ts:305 | `find` of an active mission: a found mission is active and has no active mission before it; none found means none is active |
| Events.MatchPatterns | src/serviceWorkerUtils/eventHandler.ts:320-322 | one `https://host/*` pattern per permission, in store order |
| Events.FirstActiveIsOnlyActive | src/serviceWorkerUtils/eventHandler.ts:305-308 | over a consistent store the mission found is the only active one and matches the store; none is found exactly when none is active |
| Events.AddMissionLeavesOnlyNewActive | src/serviceWorkerUtils/eventHandler.ts:232-268 | after adding and deactivating, the new mission alone is active, the store stays consistent, and every other mission is only deactivated |
| Events.StartKeepsConsistent | src/serviceWorkerUtils/eventHandler.ts:333-335 | marking the active mission running keeps the store consistent, and it stays the only active one |
| Events.EndLeavesNoneActive | src/serviceWorkerUtils/eventHandler.ts:355-366 | ending the active mission leaves no mission active or running |
| Events.AsWrittenDeactivationLeavesInactiveRunning | src/serviceWorkerUtils/eventHandler.ts:251-257 | the source's deactivation leaves a running mission inactive; the corrected one does not |
| Events.DeactivatedAsWritten | src/serviceWorkerUtils/eventHandler.ts:253 | definition: the source's deactivation, clearing `active` only; see `AsWrittenDeactivationBreaksConsistency` |
| Events.DeactivateAllButAsWritten | src/serviceWorkerUtils/eventHandler.ts:251-257 | definition: every mission but the new one deactivated as the source writes it; see `AsWrittenDeactivationBreaksConsistency` |
| Events.AsWrittenDeactivationBreaksConsistency | src/serviceWorkerUtils/eventHandler.ts:251-257 | for every store and every other mission that is running, the source's deactivation leaves it running but inactive, breaking "running implies active"; the corrected one keeps it whenever the new mission satisfies it |
| Events.Deactivated | src/serviceWorkerUtils/eventHandler.ts:253 | definition: the corrected deactivation, clearing `active` and `running`; see `DeactivateAllBut` and `AddMissionLeavesOnlyNewActive` |
| Events.NewMission | src/serviceWorkerUtils/eventHandler.ts:233-239 | definition: the stored new mission, active, not running, with no activities; see `AddMissionTo` |
| Events.Started | src/serviceWorkerUtils/eventHandler.ts:333-334 | definition: running from `now`; see `StartKeepsConsistent` and `RunMission` |
| Events.Ended | src/serviceWorkerUtils/eventHandler.ts:357-363 | definition: inactive, stopped, ended at `now`, with the activities; see `EndLeavesNoneActive` and `EndActive` |
| Events.SameNameNoClash | src/serviceWorkerUtils/eventHandler.ts:255 | writing a mission back under its key with its name unchanged cannot violate the "name" index |
| Events.DeactivateFirstAt | src/serviceWorkerUtils/eventHandler.ts:251-257 | after writing back the first n rows, exactly the missions among them except the new one are deactivated (corrected deactivation: `running` is cleared too) |
| Events.DeactivateAllRows | src/serviceWorkerUtils/eventHandler.ts:251-257 | writing back every row deactivates every mission but the new one (corrected deactivation: `running` is cleared too) |
| Events.DeactivateRow | src/serviceWorkerUtils/eventHandler.ts:252-256 | one iteration of the `forEach`: the row is written back deactivated unless it is the new mission (corrected deactivation: `running` is cleared too) |
| Events.DeactivateOthers | src/serviceWorkerUtils/eventHandler.ts:246-257 | the loop deactivates every mission but the new one, and the generator is unchanged (corrected deactivation: `running` is cleared too) |
| Events.AddMissionTo | src/serviceWorkerUtils/eventHandler.ts:223-268 | a duplicate name is refused with nothing stored; on success the mission comes back with the new key, active and not running, and is the only active one; the store stays consistent (corrected deactivation: `running` is cleared too) |
| Events.StartMissionOn | src/serviceWorkerUtils/eventHandler.ts:280-340 | errors in the source's order (tab query, no tab, "Permission denied", "No active mission found", registration) with nothing changed; otherwise the active mission is running from `now` and the answer is `true` |
| Events.RunMission | src/serviceWorkerUtils/eventHandler.ts:333-340 | the active mission is written back running with `startTime = now`, and nothing else changes |
| Events.EndMissionOn | src/serviceWorkerUtils/eventHandler.ts:352-369 | no mission is active afterwards; with none active before, nothing changes; otherwise the active mission is ended with every stored activity, and those are cleared |
| Events.EndActive | src/serviceWorkerUtils/eventHandler.ts:356-368 | the active mission gets `active = false`, `running = false`, `endTime = now` and the activities; the activities store is cleared; permissions are untouched |
| Events.EventHandler.constructor | src/serviceWorkerUtils/eventHandler.ts:77-79 | no handle yet; the stores the first connection creates are empty |
| Events.EventHandler.Initialize | src/serviceWorkerUtils/eventHandler.ts:81-84 | a handle is kept exactly when the connection opens; a failed open leaves the handler as it was |
| Events.EventHandler.InitializeAsWritten | src/serviceWorkerUtils/eventHandler.ts:81-84 | the handle is assigned whether or not the open succeeds |
| Events.EventHandler.EnsureDatabase | src/serviceWorkerUtils/eventHandler.ts:87-93 | proceeds exactly when a handle exists or the connection opens; no store changes |
| Events.EventHandler.AddURLPermission | src/serviceWorkerUtils/eventHandler.ts:86-96 | `{ error }` with no store operation when the open fails; otherwise it stores `{ url }` under the next key and answers that key, and fails with ConstraintError, changing nothing, exactly when the URL is already permitted or no key can be generated |
| Events.EventHandler.GetURLPermissions | src/serviceWorkerUtils/eventHandler.ts:98-108 | every permission in key order; nothing changes |
| Events.EventHandler.RemoveURLPermission | src/serviceWorkerUtils/eventHandler.ts:110-120 | deletes that key and answers with it; only permissions change |
| Events.EventHandler.GetURLPermission | src/serviceWorkerUtils/eventHandler.ts:122-132 | the permission for the URL, found exactly when one exists; nothing changes |
| Events.EventHandler.AddActivity | src/serviceWorkerUtils/eventHandler.ts:134-152 | answers exactly the given fields with the new key and the store gains exactly that record, unless no key can be generated, when nothing changes |
| Events.EventHandler.RemoveActivity | src/serviceWorkerUtils/eventHandler.ts:154-164 | deletes that key and answers with it; only activities change |
| Events.EventHandler.GetActivities | src/serviceWorkerUtils/eventHandler.ts:166-176 | every activity in key order; nothing changes |
| Events.EventHandler.RemoveAllActivites | src/serviceWorkerUtils/eventHandler.ts:178-188 | activities are cleared; the other stores are untouched |
| Events.EventHandler.UpdateActivity | src/serviceWorkerUtils/eventHandler.ts:190-212 | with no title or an empty one, nothing changes and the answer is `{ data: undefined }`; with a title, only that record's `activityTitle` changes; a missing record throws a TypeError |
| Events.EventHandler.AddMission | src/serviceWorkerUtils/eventHandler.ts:214-269 | as `AddMissionTo`, behind the connection guard; permissions and activities are untouched (corrected deactivation: `running` is cleared too) |
| Events.EventHandler.StartMission | src/serviceWorkerUtils/eventHandler.ts:271-341 | as `StartMissionOn`, behind the connection guard |
| Events.EventHandler.EndMission | src/serviceWorkerUtils/eventHandler.ts:343-380 | answers `{}` whether or not a mission was active, with the stores as `EndMissionOn` leaves them |
| Events.EventHandler.GetMissions | src/serviceWorkerUtils/eventHandler.ts:383-393 | every mission in key order; nothing changes |
| Events.EventHandler.GetCurrentMission | src/serviceWorkerUtils/eventHandler.ts:395-410 | the one active mission, as stored, or none exactly when none is active |
| Events.EventHandler.EnsureDatabaseAsWritten | src/serviceWorkerUtils/eventHandler.ts:86-95 | the guard with `initialize` as written: any existing handle, connected or not, lets the request through; without one, the handle is assigned whether the open succeeds or not |
| Events.FailedOpenLeavesStaleHandle | src/serviceWorkerUtils/eventHandler.ts:81-95 | as written, after a failed open the next request's guard lets it through with an unconnected handle, even when opening would now succeed |
| Events.FailedOpenIsRetried | src/serviceWorkerUtils/eventHandler.ts:86-95 | with the corrected `initialize`, a request after a failed open connects and succeeds |
| Strings.Lower | src/activityTracker.ts:39 | same length; each upper-case ASCII letter becomes its lower-case letter (code point + 32); other characters unchanged; no upper-case letters left |
| Strings.LowerIdempotent | src/activityTracker.ts:39 | lower-casing twice is lower-casing once |
| Strings.NatText | src/activityTracker.ts:105 | a non-empty run of decimal digits |
| Strings.NatTextRoundTrip | src/activityTracker.ts:105 | reading the digits back gives the number |
| Strings.NatTextWidth | src/utils/timer.ts:1 | at most two digits exactly for numbers below 100 |
| Strings.IndexOfFrom | src/activityTracker.ts:121 | the first occurrence of the pattern at or after `from`, or none |
| Strings.ReplaceFirst | src/activityTracker.ts:121 | definition: `replace` with a string pattern, the first occurrence only; see `ReplaceLeadingOccurrence` and `RemoveAncestor` |
| Strings.ReplaceLeadingOccurrence | src/activityTracker.ts:121 | replacing a leading occurrence with "" removes exactly that prefix |
| Strings.IndexOfChar | src/activityTracker.ts:53 | a found index holds the character |
| Strings.IndexOfCharIsFirst | src/activityTracker.ts:53 | nothing before a found index holds the character, and none found means none holds it |
| Strings.IndexOfCharAt | src/activityTracker.ts:53 | the first position holding the character is found |
| Strings.FirstAfterRun | src/activityTracker.ts:53 | the same, for a run given as a slice |
| Tracker.AncestorIsValid | src/activityTracker.ts:109 | every ancestor of an element is an element of the document |
| Tracker.SerializeDomToObject | src/activityTracker.ts:29-41 | the element name is the tag name with each upper-case ASCII letter replaced by its lower-case letter and every other character kept, position by position; the attributes as they are, in DOM order |
| Tracker.DescriptionSafe | src/activityTracker.ts:43-58 | definition: no `[` in the element name and every attribute `AttributeSafe`; the precondition of the selector round trip |
| Tracker.SerializeObjectToDom | src/activityTracker.ts:60-69 | for a safe description, the element returned is what `querySelector` finds for a selector that reads back to exactly that description |
| Tracker.AttributeSelector | src/activityTracker.ts:53 | definition: `[name="value"]`, nothing escaped; see `AttributeSelectorParts` and `FirstSelectorBounds` |
| Tracker.AttributeSelectors | src/activityTracker.ts:51-55 | definition: the attribute selectors joined with ""; see `AttributeSelectorsAppend` and `AttributeSelectorsRoundTrip` |
| Tracker.GetDomElementSelector | src/activityTracker.ts:43-58 | definition: the element name followed by the attribute selectors; see `DomElementSelectorRoundTrip` and `SafeDescriptionsHaveDistinctSelectors` |
| Tracker.AttributeSelectorsAppend | src/activityTracker.ts:51-55 | every attribute contributes one `[k="v"]`, in order |
| Tracker.NoAttributesSelector | src/activityTracker.ts:50-57 | with no attributes, the selector is the element name alone |
| Tracker.SelectorOfAppendedAttribute | src/activityTracker.ts:50-57 | one more attribute appends exactly its `[k="v"]` |
| Tracker.SelectorBounds | src/activityTracker.ts:53 | for the reader: where the first `[k="v"]` has its `=` and its closing quote |
| Tracker.AttributeSelectorParts | src/activityTracker.ts:53 | where the name, the value and the delimiters of `[k="v"]` sit |
| Tracker.ParseOneStep | src/activityTracker.ts:53 | the reader takes one attribute and continues after its `]` |
| Tracker.FirstSelectorBounds | src/activityTracker.ts:53 | in a safe attribute the name ends at the first `=` and the value at the next quote |
| Tracker.ParseFirstAttribute | src/activityTracker.ts:53 | a safe attribute selector is read back in front of what follows it |
| Tracker.AttributeSelectorsRoundTrip | src/activityTracker.ts:51-55 | safe attributes are recovered, in order, from their selectors |
| Tracker.DomElementSelectorRoundTrip | src/activityTracker.ts:43-58 | a safe description is recovered from its selector |
| Tracker.SafeDescriptionsHaveDistinctSelectors | src/activityTracker.ts:43-69 | two safe descriptions have the same selector exactly when they are equal |
| Tracker.UnescapedQuoteForgesAttributes | src/activityTracker.ts:53 | with no escaping, one attribute with a quote in its value renders like two attributes |
| Tracker.NthSegmentPosition | src/activityTracker.ts:103-105 | the `:nth-child` index is the element's 1-based position among its parent's children |
| Tracker.Segments | src/activityTracker.ts:107-119 | one qualified segment per element from the target up to the document element's child |
| Tracker.SegmentAt | src/activityTracker.ts:109-117 | segment k belongs to the ancestor k levels up |
| Tracker.WalkSelectorEndsWithTarget | src/activityTracker.ts:117 | every selector of the walk ends with the target's segment |
| Tracker.Answers | src/activityTracker.ts:118 | the match count of each selector of the walk |
| Tracker.WalkEnd | src/activityTracker.ts:108-124 | a unique end lies past the start; a back-out leaves a further ancestor; the walk never ends on the plain selector |
| Tracker.WalkFromAnswers | src/activityTracker.ts:108-124 | querying at each step is the same walk as reading the answers |
| Tracker.WalkEndsAtFirstUnique | src/activityTracker.ts:108-118 | a unique end is at the first selector with exactly one match |
| Tracker.WalkBacksOutAtFirstEmpty | src/activityTracker.ts:120-123 | a back-out happens at the first step with no match, every step before it being ambiguous |
| Tracker.WalkReachesRootWhenAlwaysAmbiguous | src/activityTracker.ts:108-113 | the walk reaches the document element exactly when every selector matched more than one element |
| Tracker.NthChildSelector | src/activityTracker.ts:103-105 | the target's selector with `:nth-child(i)` for its position |
| Tracker.PrependAncestor | src/activityTracker.ts:109-117 | the next ancestor's qualified segment, a space, then the selector so far, which is the next selector of the walk |
| Tracker.RemoveAncestor | src/activityTracker.ts:121 | removing the first occurrence of the prepended segment and its space restores the previous selector |
| Tracker.WalkStep | src/activityTracker.ts:108-124 | one loop pass: it stops with the walk's outcome, or extends the selector by one ancestor and reports whether that is unique |
| Tracker.WalkAncestors | src/activityTracker.ts:103-124 | the loop's result is the walk's outcome over the target's segments |
| Tracker.ClickEndFor | src/activityTracker.ts:86-124 | definition: how the search for a selector ends (thrown query, plain unique, missing parent, or the walk's end); see `WalkEndsAtFirstUnique`, `WalkBacksOutAtFirstEmpty` and `TargetWithoutParentThrows` |
| Tracker.ClickResultFor | src/activityTracker.ts:86-134 | definition: the listener's outcome, a failure or the message sent; see `OnClick`, `PlainUniqueSelectorIsSent`, `StopsAtFirstUniqueMatch` and `RootDereferenceThrows` |
| Tracker.OnClick | src/activityTracker.ts:86-134 | the listener's result is the specified click outcome: message sent, or the error thrown |
| Tracker.PlainUniqueSelectorIsSent | src/activityTracker.ts:89-101 | a plain selector with exactly one match is sent unchanged |
| Tracker.WalkedSelectorEndsWithTarget | src/activityTracker.ts:103-117 | otherwise the selector sent has the target's segment, with the nearest ancestors' segments in front, and ends with it |
| Tracker.StopsAtFirstUniqueMatch | src/activityTracker.ts:108-118 | the selector sent is the first one of the walk with exactly one match |
| Tracker.BackOutRestoresPreviousSelector | src/activityTracker.ts:120-123 | when an ancestor leaves no match, the selector sent is the one before that step |
| Tracker.TargetWithoutParentThrows | src/activityTracker.ts:103-104 | clicking the document element itself with a non-unique plain selector: the target's `parentElement!` throws and nothing is sent |
| Tracker.RootDereferenceThrows | src/activityTracker.ts:107-115 | for a child of the document element whose plain selector is not unique, the walk reaches the document element and its `parentElement!` throws, so nothing is sent |
| Timer.TimerRegex | src/utils/timer.ts:1 | definition: one or two digits then `min`, the whole string; see `TimerRegexAccepts`, `TimerRegexRejects` and `MinutesAccepted` |
| Timer.TimeGroup | src/utils/timer.ts:1 | a value exactly for accepted strings, and below 100 |
| Timer.AtMostTwoDigits | src/utils/timer.ts:1 | one or two digits are worth less than 100 |
| Timer.TimerRegexAccepts | src/utils/timer.ts:1 | `5min`, `15min` and `00min` are accepted |
| Timer.TimerRegexRejects | src/utils/timer.ts:1 | `100min`, `min`, `15 min`, `15mins`, `xmin` and `5MIN` are rejected |
| Timer.MinutesAccepted | src/utils/timer.ts:1 | a number followed by `min` is accepted exactly when it is below 100, and the group reads it back |
| Timer.ClockOf | src/utils/timer.ts:9-28 | hours below 24, minutes and seconds below 60 |
| Timer.CalcTimerDiff | src/utils/timer.ts:9-28 | the step-by-step computation gives the time of day of `t` |
| Timer.ModOfDay | src/utils/timer.ts:19-20 | taking the hours off the seconds of the day leaves the seconds of the hour |
| Timer.ModOfHour | src/utils/timer.ts:22-23 | taking the minutes off leaves the seconds of the minute |
| Timer.ClockAddsUp | src/utils/timer.ts:10-27 | hours·3600 + minutes·60 + seconds is `t` mod 86400 |
| Timer.DivModOf | src/utils/timer.ts:19-23 | division by a minute, an hour or a day undoes `q·m + r` |
| Timer.ClockOfSeconds | src/utils/timer.ts:9-28 | a time of day is recovered from its seconds since midnight |
| Timer.ClockIsDaily | src/utils/timer.ts:10-11 | a day later gives the same time of day |
| Timer.ClockUnderAMinute | src/utils/timer.ts:19-25 | under a minute, hours and minutes are 0 and seconds are `t` |
| Markup.AttributeText | src/components/Activity.tsx:11 | definition: `name="value"`, nothing escaped; see `SpacedItemParts` and `FirstSpacedBounds` |
| Markup.AttributeList | src/components/Activity.tsx:11 | definition: the attribute texts joined with " "; see `AttributeListAppend` and `AttributeListRoundTrip` |
| Markup.CodeSegment | src/components/Activity.tsx:9-13 | definition: `<name ` then the list then `> </name>`; see `CodeSegmentRoundTrip` and `DistinctElementsDistinctMarkup` |
| Markup.NoAttributesMarkup | src/components/Activity.tsx:10-13 | with no attributes the markup is `<name > </name>` |
| Markup.AttributeListAppend | src/components/Activity.tsx:11 | two non-empty lists join with exactly one space; every attribute contributes once, in order |
| Markup.UnescapedQuoteForgesMarkup | src/components/Activity.tsx:11 | with no escaping, one attribute with a quote in its value renders like two attributes |
| Markup.AttributesSpaced | src/components/Activity.tsx:11 | a space in front of the list gives every item its own leading space |
| Markup.SpacedBounds | src/components/Activity.tsx:11 | for the reader: where the first ` k="v"` has its `=` and its closing quote |
| Markup.SpacedItemParts | src/components/Activity.tsx:11 | where the name, the value and the delimiters of ` k="v"` sit |
| Markup.FirstSpacedBounds | src/components/Activity.tsx:11 | in a safe attribute the name ends at the first `=` and the value at the next quote |
| Markup.ParseSpacedStep | src/components/Activity.tsx:11 | the reader takes one attribute and continues after its closing quote |
| Markup.ParseFirstSpaced | src/components/Activity.tsx:11 | a safe attribute is read back in front of what follows it |
| Markup.SpacedRoundTrip | src/components/Activity.tsx:11 | safe attributes are recovered, in order, each after its space |
| Markup.AttributeListRoundTrip | src/components/Activity.tsx:11 | safe attributes are recovered, in order, from their space-joined list |
| Markup.NameEnd | src/components/Activity.tsx:10-13 | for the reader: the name ends at the first space, and the closing tag repeats it |
| Markup.CodeSegmentParts | src/components/Activity.tsx:10-13 | where `<`, the name, the space, the list and `> </name>` sit |
| Markup.ParseCodeSegmentStep | src/components/Activity.tsx:10-13 | the reader takes the name and reads the list between the tags |
| Markup.CodeSegmentNameEnd | src/components/Activity.tsx:10 | a name without spaces ends at the space after it |
| Markup.CodeSegmentRoundTrip | src/components/Activity.tsx:9-13 | an element with a space-free name and safe attributes is recovered from its markup |
| Markup.DistinctElementsDistinctMarkup | src/components/Activity.tsx:9-13 | two such elements share their markup exactly when they are equal |

## Findings

| source | as written | input that shows it | evidently intended | confidence | as-written member | corrected member |
|---|---|---|---|---|---|---|
| src/serviceWorkerUtils/eventHandler.ts:81-84 | `this.db` is assigned before `conncect()` settles, so a failed open leaves a handle whose IndexedDB connection is missing; every later guard `!this.db` skips the retry, and the `Database` operations, which use optional chaining on the missing connection, never settle | a first request whose open fails, then any request | keep the handle only once the connection is open, so the next request connects again | medium, not executed | Events.FailedOpenLeavesStaleHandle | Events.FailedOpenIsRetried |
| src/serviceWorkerUtils/eventHandler.ts:251-257 | `addMission` deactivates the other missions with `active = false` only, so a running mission becomes inactive but stays running, and `endMission`, which ends only the active mission, never stops it | start mission 1, then add mission 2 | deactivation also clears `running`, keeping "running implies active" | medium, not executed | Events.AsWrittenDeactivationBreaksConsistency | Events.AddMissionLeavesOnlyNewActive |

The rest of the model uses the corrected definitions: `Events.EventHandler.Initialize` and `Events.Deactivated`. The as-written versions are `Events.EventHandler.InitializeAsWritten`, `Events.EventHandler.EnsureDatabaseAsWritten`, `Events.DeactivatedAsWritten` and `Events.DeactivateAllButAsWritten`. `Events.AsWrittenDeactivationLeavesInactiveRunning` is the two-mission instance of the second row.

## Left out

- Chrome extension APIs are left out: `chrome.tabs.query`, `chrome.scripting.registerContentScripts` and `unregisterContentScripts`, `runtime.sendMessage` and `onMessage`. The tab, the registration outcome and the clock are parameters. The registration's match patterns are returned, not registered.
- `new URL(tab.url).hostname` is taken as already extracted: `ActiveTab.Tab(hostname)`.
- The IndexedDB open request, versioning and `upgradeneeded` events are left out, as they are asynchronous I/O. The model starts from the schema the upgrade creates, with empty stores, so data kept from earlier sessions is not modelled.
- A store request failing for I/O reasons is not modelled. The Indexed Database API defines further failures for these calls, such as DataError and TransactionInactiveError. The failures the model keeps are ConstraintError and NotFoundError.
- Store.ObjectStore.Put: does not cap the key generator at 2^53 when a larger explicit key is stored, because every key the handlers write back was read from the store.
- Concurrency and asynchrony are left out.
  - The un-awaited `forEach(async ...)` of `addMission` is modelled as a sequential loop. Each write's result is ignored, as in the source, and the model proves that write cannot fail.
  - `endMission`'s update and clear are two separate steps, not one atomic change.
- `scrollIntoView` and the `onMessage` listener of `src/activityTracker.ts` (lines 1-27) are left out. `src/serviceWorker.ts` is not part of this model. The UI components other than `CodeSegment`'s string are left out, including `src/components/Timer.tsx`. No message router exists in the source, so none is modelled.
- `window.location.toString()` and `target.textContent` are parameters (`url`, `text`). A null `textContent` is not modelled.
- Real CSS selector parsing and matching are not modelled: `querySelectorAll` and `querySelector` are parameters. `SerializeObjectToDom` therefore promises only what it asks for (a selector that reads back to the description), not which element the document returns.
- Lower-casing covers ASCII letters only.
- Events.FailedOpenLeavesStaleHandle: stops at the guard letting the request through with an unconnected handle. That the `Database` call then never settles is not modelled, because the store's request events are not modelled.
- Events.EventHandler.UpdateActivity: kept as written. With a title and no record under the id, the handler writes to `undefined` and throws, modelled as `Err(TypeError)`.
- Events.EventHandler.AddActivity: the source's `!result.data` branch is unreachable, because generated keys start at 1. The model has no such branch.
- Unescaped quotes in selectors and markup are kept as written and exhibited by the two forging lemmas. The round trips assume safe names and values.
- The missing `parentElement` at the document element is kept as written. It is exhibited by `TargetWithoutParentThrows` (line 104) and `RootDereferenceThrows` (line 113).
- Timer.CalcTimerDiff: covers whole, non-negative seconds only. JavaScript's `%` and `Math.floor` on negative or fractional numbers are not modelled.
- The regex group `time` is modelled by `TimeGroup`. No code in this model reads it, and `addMission` does not check `missionTime` against the regex.
