# Select mode, bezierize, Wikipedia field and quick-preset tools of the iD map editor

This project is a Dafny model of a handful of decision rules from the iD
OpenStreetMap editor (a fork that adds a "bezierize" operation). It models:

- the **select mode**: pruning stale selected IDs, the parent ways the selected
  vertices share, the remembered related parent, cycling through the parents,
  stepping to the previous, next, first or last vertex of a way (with
  wrap-around on closed ways), requesting the missing members of selected
  relations, assembling the edit-menu operations, and the exit rule that drops
  an untouched new relation;
- the **bezierize operation**: which selected vertices qualify, the batch
  action that skips disabled sub-actions, aggregating disabled reasons and
  their precedence, the tooltip and annotation keys; the operation is built
  either with chooseAction as written or with the evidently intended one (see
  Findings), and what each yields is stated for every input;
- the **bezierize action**: the identity action, its `needs_3_points` reason,
  the `transitionable` flag and the integer binomial helper;
- the **Wikipedia field**: the language combo filter, the language lookup
  with its fallbacks, turning a pasted `wikipedia.org` URL into a title,
  building the `wikipedia=lang:title` tag, reading a tag back into the inputs
  and a view URL, and the asynchronous wikidata follow-up;
- the **quick-preset toolbar tools**: the favourites (up to 30, labelled
  `0`–`9` then `A`–`T`) and the recents (up to five non-favourites, labelled
  on the number row after the favourites, under the source's label rule or
  the favourites' numbering carried on), and the keys `willUpdate` unbinds.

The entity graph is reduced to what these rules read: an ID→entity map
(nodes, ways with their node lists, relations with their members, each with
tags), plus the graph's parent-way and parent-relation indices (`OsmGraph`). A
node is a vertex when it belongs to a way. A way is closed when it has at
least two nodes and its last node is its first.

Modules, one per source file: `ModeSelect` (`mode_select.dfy`, with a
`SelectMode` class for the closure state), `OperationBezierize` (a
`BezierizeOperation` class), `ActionBezierize`, `FieldWikipedia` (a
`WikipediaField` class for the inputs and `_wikiURL`), `QuickPresetsFavorites`
and `QuickPresetsRecent`. They share `QuickPresetItems` (the preset items whose
`key` the tools write in place), `OsmGraph`, `Strings` and `Common`.

Services the code calls are parameters of the model:

- the context's graph, `inIntro`, the connection and `isDataLoaded`;
- the visible-extent test;
- `decodeURIComponent`/`encodeURIComponent`, as functions returning `None`
  where they throw;
- `preset.matches`;
- the wikidata answer.

Calls that only start work elsewhere are returned as data:

- the members to load;
- the tiles to load;
- the dispatched tag and the wikidata query;
- the operations list.

## Model

| member | source | states |
|---|---|---|
| ModeSelect.PresentIDs | modules/modes/select.js:75-80 | keeps exactly the selected IDs present in the graph, each as often as before, in their original order; returns the selection unchanged when every ID is present |
| ModeSelect.SelectMode.CheckSelectedIDs | modules/modes/select.js:74-88 | returns true iff some selected ID is present; then the selection becomes the present IDs; otherwise the selection is left as it was and browse mode is entered |
| ModeSelect.PresentIDsIdempotent | modules/modes/select.js:74-88 | pruning an already pruned selection changes nothing, so the second checkSelectedIDs of selectElements keeps the selection |
| ModeSelect.Intersect | modules/modes/select.js:108 | the intersection keeps the elements of the running list that are also in the current parents |
| ModeSelect.SharedBySpec | modules/modes/select.js:102-111 | the running intersection holds exactly the candidate ways that are parents of every vertex seen so far, in the first vertex's order |
| ModeSelect.CommonParentsSpec | modules/modes/select.js:92-115 | `[]` when any selected ID is missing or not a vertex, or when nothing is selected; every returned way is a parent of every selected vertex; every way that is a parent of all of them is returned; the result keeps the first vertex's parent order |
| ModeSelect.CommonParents | modules/modes/select.js:92-115 | the loop with its early returns computes the common parents as specified by CommonParentsOf |
| ModeSelect.PreferredParent | modules/modes/select.js:118-138 | null iff there are no common parents; otherwise one of them: the remembered one when it is among them, else the first |
| ModeSelect.NextParentOf | modules/modes/select.js:516-521 | definition: the parent after the remembered one, or the first when the remembered one is absent or last |
| ModeSelect.MemoryAfter | modules/modes/select.js:118-138 | the memory is empty iff there is no common parent, or several and none was remembered; the only parent is remembered; with several the old memory stays |
| ModeSelect.SelectMode.SingularParent | modules/modes/select.js:118-138 | returns PreferredParent; clears the remembered parent with no common parent, remembers the only one, and leaves the memory alone when there are several |
| ModeSelect.SelectMode.ParentWayHoldsSelection | modules/modes/select.js:465-470 | on a sound graph the chosen parent is a way of the graph that contains the first selected node |
| ModeSelect.PreviousIndex | modules/modes/select.js:469-477 | `curr-1` when `curr > 0`; otherwise `length-2` exactly when the way is closed; any chosen index lies in `[0, length)` |
| ModeSelect.NextIndex | modules/modes/select.js:493-501 | `curr+1` when `curr < length-1`; otherwise `0` exactly when the way is closed; any chosen index lies in `[0, length)` |
| ModeSelect.PreviousVertexOf | modules/modes/select.js:468-477 | definition: the node at the index the previous-vertex rule picks from the selected node, if any |
| ModeSelect.NextVertexOf | modules/modes/select.js:492-501 | definition: the node at the index the next-vertex rule picks from the selected node, if any |
| ModeSelect.SelectMode.PreviousVertex | modules/modes/select.js:463-484 | nothing without a parent; otherwise the node before the first selected node in the preferred parent way, wrapping on closed ways; the memory is updated as singularParent does |
| ModeSelect.SelectMode.NextVertex | modules/modes/select.js:487-508 | nothing without a parent; otherwise the node after the first selected node in the preferred parent way, wrapping on closed ways; the memory is updated as singularParent does |
| ModeSelect.ClosedWayNextSteps | modules/modes/select.js:493-501 | on a closed way, stepping forward from any of its nodes never needs the wrap branch of the index rule |
| ModeSelect.ClosedWayWrapsAround | modules/modes/select.js:469-501 | on a closed way without repeated nodes, the node after the last distinct node is the first, and the node before the first is the last distinct node |
| ModeSelect.NextThenPrevious | modules/modes/select.js:463-508 | on a way without repeated nodes (other than closing), previous undoes next |
| ModeSelect.PreviousThenNext | modules/modes/select.js:463-508 | on a way without repeated nodes (other than closing), next undoes previous |
| ModeSelect.SelectMode.FirstVertex | modules/modes/select.js:423-440 | selects the first node of the selected way, else of the preferred parent, else nothing; the memory is updated as singularParent does |
| ModeSelect.SelectMode.LastVertex | modules/modes/select.js:443-460 | selects the last node of the selected way, else of the preferred parent, else nothing; the memory is updated as singularParent does |
| ModeSelect.NextParentIsSuccessor | modules/modes/select.js:516-521 | the new remembered parent is the element after the remembered one, cyclically, and `parents[0]` when it is absent |
| ModeSelect.NextOfDistinct | modules/modes/select.js:516-521 | with distinct parents, cycling moves from the parent at index m to the one at m+1, and from the last one to the first |
| ModeSelect.SelectMode.NextParent | modules/modes/select.js:511-521 | with fewer than two common parents nothing changes; otherwise the memory becomes the next parent |
| ModeSelect.MissingInSpec | modules/modes/select.js:238-242 | the missing members of one relation are exactly its member IDs the graph lacks |
| ModeSelect.MissingMembersSpec | modules/modes/select.js:234-243 | the collected IDs are exactly those missing from the graph and members of some selected relation |
| ModeSelect.AddMissingMembers | modules/modes/select.js:238-242 | adding one relation's missing members to the set keeps it equal to the insertion-ordered set of everything inserted |
| ModeSelect.ScheduleMissingMemberDownload | modules/modes/select.js:232-250 | requests the first 150 distinct missing member IDs, in insertion order |
| ModeSelect.MissingMemberRequestSound | modules/modes/select.js:245-248 | the requested IDs are distinct, at most 150, each missing and a member of a selected relation; when no more than 150 are missing, all are requested |
| ModeSelect.OfferedBeforeLast | modules/modes/select.js:261-263 | the offered operations are exactly the available ones other than delete and downgrade |
| ModeSelect.AssembleOperations | modules/modes/select.js:261-269 | the list ends with downgrade when it is available outside the walkthrough, else with delete; before that come exactly the available operations other than those two |
| ModeSelect.SelectMode.Enter | modules/modes/select.js:252-301 | stops (entering browse mode, memory untouched) when no selected ID is present; otherwise prunes the selection, requests the missing members, stores the assembled operations and, through selectElements, forgets the remembered parent with no common parent, remembers the only one, and keeps it when there are several |
| ModeSelect.SelectMode.SelectElements | modules/modes/select.js:370-388 | prunes again (stopping in browse mode when nothing is left), then updates the remembered parent as singularParent does |
| ModeSelect.DeletedOnExit | modules/modes/select.js:575-587 | the single selected entity is deleted iff the mode was for a new feature and it is a relation with no tags, no parent relations, and no members or one member with an empty role |
| ModeSelect.EditedRelationSurvivesExit | modules/modes/select.js:576-583 | a relation with a tag, a parent relation, two or more members, or a member with a role is never deleted on exit |
| ActionBezierize.BezierizeAction.Disabled | modules/actions/bezierize.js:51-55 | `needs_3_points` iff `nodeIDs.length` is not 3, else false |
| ActionBezierize.BezierizeAction.Apply | modules/actions/bezierize.js:7-19 | succeeds only with the input graph itself; throws when the IDs are a string (no `.map`), at the first ID the graph lacks, or when the projection is not a function |
| ActionBezierize.FirstMissing | modules/actions/bezierize.js:8 | the first node ID `graph.entity` fails on, or the list length when every node is present |
| ActionBezierize.Binomial | modules/actions/bezierize.js:21-30 | the two loops compute n choose k; every division is exact |
| ActionBezierize.FallingProduct | modules/actions/bezierize.js:21-30 | `(n-k+1)·…·n` equals n choose k times k! |
| OperationBezierize.ChooseActionAsWritten | modules/operations/bezierize.js:28-43 | an action only for a vertex with exactly one parent way, strictly inside it; the action receives the ID string and the projection as written at line 38 |
| OperationBezierize.ChooseAction | modules/operations/bezierize.js:28-43 | an action exactly when the vertex qualifies as above; the action gets the previous node, the vertex and the next node |
| OperationBezierize.Bezierizable | modules/operations/bezierize.js:28-37 | definition: a vertex with exactly one parent way, neither its first nor its last node |
| OperationBezierize.Chosen | modules/operations/bezierize.js:11 | definition: the actions the given chooseAction yields for the selected IDs, in order, the nulls dropped |
| OperationBezierize.ChosenCount | modules/operations/bezierize.js:11 | never more actions than selected IDs, and as many exactly when every selected ID qualifies |
| OperationBezierize.ChosenFromVertex | modules/operations/bezierize.js:28-30 | any action comes from a vertex, which is why the `type` is then `corner` |
| OperationBezierize.ChosenHaveThreeNodes | modules/operations/bezierize.js:33-38 | every intended action is given a list of three node IDs and the map projection; in a graph that holds every way's nodes, all three are entities |
| OperationBezierize.ChosenAsWritten | modules/operations/bezierize.js:11-38 | as written, every action is given a qualifying selected ID as a string and a projection that is not a function, and every qualifying selected ID has such an action |
| OperationBezierize.ChosenAsWrittenBlocked | modules/operations/bezierize.js:11-38 | as written, there are actions iff some selected ID qualifies, and they are all disabled iff no qualifying ID has three characters |
| OperationBezierize.BezierizeOperation.constructor | modules/operations/bezierize.js:11-14 | the actions are the ones the given chooseAction (as written or as intended) yields for the selected IDs, in order, and the corner flag is set iff some selected ID is a vertex |
| OperationBezierize.BezierizeOperation.Available | modules/operations/bezierize.js:68-77 | false with no actions or when some selected ID produced none; true otherwise outside the toolbar |
| OperationBezierize.NeverEndVertex | modules/operations/bezierize.js:71-74 | no action has the reason `end_vertex`, so the toolbar test never removes the operation |
| OperationBezierize.BezierizeOperation.AvailableIffAllBezierizable | modules/operations/bezierize.js:68-77 | available in any situation iff the selection is non-empty and every selected ID qualifies |
| OperationBezierize.MissingCoords | modules/operations/bezierize.js:117 | the missing locations are exactly those not loaded, in order |
| OperationBezierize.DisabledReason | modules/operations/bezierize.js:81-110 | definition: `''` without actions; the common reason, or `multiple_blockers`, when every action is disabled; else `too_large`, `not_downloaded`, `connected_to_hidden` in that order; else false |
| OperationBezierize.BezierizeOperation.Disabled | modules/operations/bezierize.js:81-125 | the reason is DisabledReason for the collected reasons, the corner flag, the extent test, someMissing and the hidden-connection test; the tiles requested are the unloaded locations exactly when someMissing is reached outside the walkthrough with a connection |
| OperationBezierize.DisabledWhenBlocked | modules/operations/bezierize.js:82-100 | `''` with no actions; when every action is disabled, the first action's reason, and never `multiple_blockers` since every action has the same single reason |
| OperationBezierize.DisabledPrecedence | modules/operations/bezierize.js:101-110 | when some action is enabled: `too_large` for a non-corner selection mostly outside the view, else `not_downloaded`, else `connected_to_hidden`, else false |
| OperationBezierize.BezierizeOperation.DisabledNeverTooLarge | modules/operations/bezierize.js:81-110 | with either chooser the operation is never `too_large` or `multiple_blockers` |
| OperationBezierize.BezierizeOperation.IntendedOutcome | modules/operations/bezierize.js:47-110 | with the intended actions the operation is never `needs_3_points`, and in a graph that holds every way's nodes the batch returns the graph |
| OperationBezierize.BezierizeOperation.AsWrittenOutcome | modules/operations/bezierize.js:38-110 | with the source's actions the reason is `needs_3_points` iff some selected ID qualifies and none of those has three characters; the batch throws a TypeError iff one has, and otherwise returns the graph |
| OperationBezierize.TooltipKey | modules/operations/bezierize.js:128-133 | `operations.bezierize.<reason>` when disabled, else `operations.bezierize.description.points` |
| OperationBezierize.TooltipKeysDistinct | modules/operations/bezierize.js:128-133 | distinct reasons give distinct tooltip keys |
| OperationBezierize.CombinedSpec | modules/operations/bezierize.js:50-57 | definition: the actions applied in order to the graph each returns, a disabled one skipped, the first error ending the run |
| OperationBezierize.CombinedAction | modules/operations/bezierize.js:50-57 | the loop applies the sub-actions in order, skipping disabled ones, as specified by CombinedSpec |
| OperationBezierize.CombinedKeepsGraph | modules/operations/bezierize.js:50-57 | a batch that does not throw returns its input graph; a batch of disabled actions returns it unchanged |
| OperationBezierize.CombinedSucceeds | modules/operations/bezierize.js:50-57 | a batch of actions over three present nodes with the map projection never throws |
| OperationBezierize.CombinedOfIdStrings | modules/operations/bezierize.js:50-57 | a batch of actions given ID strings returns the graph when each is disabled, and throws a TypeError otherwise |
| OperationBezierize.BezierizeOperation.Perform | modules/operations/bezierize.js:47-60 | nothing with no actions; otherwise the batch applied to the current graph |
| OperationBezierize.AsWrittenActionBroken | modules/operations/bezierize.js:38 | as written, a qualifying vertex's action is disabled iff its ID is not three characters long, and applying it always throws |
| OperationBezierize.AsWrittenCombinedActionThrows | modules/operations/bezierize.js:50-57 | as written, the batch throws for the vertex `n22` in the middle of a three-node way |
| OperationBezierize.AsWrittenActionAlwaysBlocked | modules/operations/bezierize.js:81-100 | as written, the operation on vertex `n223` has one action and its DisabledReason is `needs_3_points`, whatever the other tests say; the intended action is enabled |
| FieldWikipedia.LocalNames | modules/ui/fields/wikipedia.js:41 | the local name of every site, in order |
| FieldWikipedia.LangSuggestions | modules/ui/fields/wikipedia.js:33-42 | definition: the local names of the sites matching the lower-cased input |
| FieldWikipedia.SuggestionsForSpec | modules/ui/fields/wikipedia.js:35-42 | the suggestions are the local names of exactly the sites one of whose fields, lower-cased, contains the value, in site order |
| FieldWikipedia.LangSuggestionsSpec | modules/ui/fields/wikipedia.js:33-42 | the same with the input lower-cased first: case-insensitive matching |
| FieldWikipedia.FindInput | modules/ui/fields/wikipedia.js:151-153 | the first site whose name or local name, lower-cased, or whose code equals the input |
| FieldWikipedia.LastWithCode | modules/ui/fields/wikipedia.js:152 | the last site whose code is the locale |
| FieldWikipedia.Language | modules/ui/fields/wikipedia.js:147-155 | the first site named by the input; failing that the last site whose code is the locale; failing that English |
| FieldWikipedia.FindCode | modules/ui/fields/wikipedia.js:172 | the first site with the given code, none iff no site has it |
| FieldWikipedia.LangRunEnd | modules/ui/fields/wikipedia.js:171 | the greedy run of `[-a-z]` ends at the first other character |
| FieldWikipedia.AnchorAt | modules/ui/fields/wikipedia.js:171 | the optional anchor group: a non-empty run free of line terminators after `#` |
| FieldWikipedia.TitleFrom | modules/ui/fields/wikipedia.js:171 | the title group is non-empty and stops before the first `#` |
| FieldWikipedia.MatchUrlAt | modules/ui/fields/wikipedia.js:171 | a match names a non-empty `[-a-z]` language |
| FieldWikipedia.MatchTagAt | modules/ui/fields/wikipedia.js:254 | a tag match names a non-empty language free of `:` |
| FieldWikipedia.MatchUrl | modules/ui/fields/wikipedia.js:171 | definition: the leftmost match of the URL expression, searched from index 0 |
| FieldWikipedia.MatchTag | modules/ui/fields/wikipedia.js:254 | definition: the leftmost match of the tag expression, searched from index 0 |
| FieldWikipedia.AnchorReadsBack | modules/ui/fields/wikipedia.js:171 | the anchor group reads back the anchor that was written after `#` |
| FieldWikipedia.TitleFromReadsBack | modules/ui/fields/wikipedia.js:171 | the title and anchor groups read back the title and anchor that were written |
| FieldWikipedia.TagReadsBack | modules/ui/fields/wikipedia.js:254 | `code:title#anchor` matches with exactly that code, title and anchor |
| FieldWikipedia.UrlHeaderScans | modules/ui/fields/wikipedia.js:171 | `https://<code>.wikipedia.org/wiki/` is matched from its start, with the title starting right after it |
| FieldWikipedia.UrlReadsBack | modules/ui/fields/wikipedia.js:171 | an article URL matches with exactly its code, title and anchor |
| FieldWikipedia.NormalizedTitle | modules/ui/fields/wikipedia.js:177-189 | none iff decoding the title or a non-empty anchor throws; otherwise, position by position, the decoded title with `_` as spaces and its first character upper-cased, then, with an anchor, `#` at the title's length and the decoded anchor with `_` as spaces; no `_` is left |
| FieldWikipedia.SyncTag | modules/ui/fields/wikipedia.js:194-198 | undefined iff the value is empty; otherwise the prefix of `code:value` of length min(maximum, full length) |
| FieldWikipedia.SyncTagReadsBack | modules/ui/fields/wikipedia.js:194-198 | a tag that fits reads back as the code and the title it was built from |
| FieldWikipedia.EncodeAnchor | modules/ui/fields/wikipedia.js:262-269 | the anchor with spaces as `_`, encoded with `%` turned into `.`, and only the spaces changed when encoding throws |
| FieldWikipedia.ViewOf | modules/ui/fields/wikipedia.js:253-282 | a recognised tag sets the site's local name, the title and anchor, and the article URL; any other non-empty value is the title, clears the language and gives the English search URL; an empty value gives `''` |
| FieldWikipedia.ViewUrlReadsBack | modules/ui/fields/wikipedia.js:254-271 | the view URL of a recognised tag, with or without an anchor, matches the URL expression with the tag's code, its title with `_` for spaces and the anchor as encoded; the title input shows the title and anchor |
| FieldWikipedia.PastedViewUrlRestoresTitle | modules/ui/fields/wikipedia.js:171-191 | pasting an article's view URL back restores the title it came from |
| FieldWikipedia.FirstQid | modules/ui/fields/wikipedia.js:215-216 | the first key matching `^Q\d+$`, none iff no key matches |
| FieldWikipedia.WithWikidata | modules/ui/fields/wikipedia.js:220-222 | the copy carries the value as its wikidata tag and every other tag as before |
| FieldWikipedia.WithWikidataSame | modules/ui/fields/wikipedia.js:221 | setting the tag an entity already has changes nothing |
| FieldWikipedia.TagChangesEmpty | modules/ui/fields/wikipedia.js:218-227 | no change action iff every entity already has the value |
| FieldWikipedia.TagChangesPresent | modules/ui/fields/wikipedia.js:218-225 | every change action is for one of the edited entities |
| FieldWikipedia.TagChanges | modules/ui/fields/wikipedia.js:218-225 | definition: one change action per edited entity whose wikidata tag differs, in order |
| FieldWikipedia.WikidataFollowUp | modules/ui/fields/wikipedia.js:209-227 | nothing on an error, on missing or empty data, or when the graph is no longer the one captured; otherwise the non-empty list of change actions for the first Q-identifier |
| FieldWikipedia.WikidataFollowUpWhen | modules/ui/fields/wikipedia.js:209-227 | the overwrite happens iff there is no error, the data is non-empty, the graph is unchanged, and some entity's wikidata tag differs |
| FieldWikipedia.ApplyChanges | modules/ui/fields/wikipedia.js:232-234 | applying the change actions keeps the set of entity IDs |
| FieldWikipedia.WikidataOverwriteEffect | modules/ui/fields/wikipedia.js:218-238 | after the overwrite every edited entity has the value as its wikidata tag, with its other tags as before, and every other entity is unchanged |
| FieldWikipedia.UpdateWikidataTags | modules/ui/fields/wikipedia.js:231-236 | the loop applies the change actions in order |
| FieldWikipedia.WikipediaField.UpdateForTags | modules/ui/fields/wikipedia.js:251-283 | the inputs and the link become ViewOf the field's value; the language input is kept when ViewOf leaves it alone |
| FieldWikipedia.WikipediaField.SetTags | modules/ui/fields/wikipedia.js:246-249 | stores the tags and sets the inputs and link to the view of them over the unchanged site matrix; entities are kept |
| FieldWikipedia.WikipediaField.SetData | modules/ui/fields/wikipedia.js:24-29 | stores the site matrix and sets the inputs and link to the view of the last tags over it, if any; tags and entities are kept |
| FieldWikipedia.WikipediaField.ChangedFrom | modules/ui/fields/wikipedia.js:169-203 | definition: the state change() leaves from given inputs: it throws iff the title is a URL of a known site that fails to decode, leaving the inputs; a URL of a known site sets the language input and the normalised title; then the tag for the resulting language and title is dispatched, and the wikidata lookup starts iff not skipped and both the title and the code are non-empty |
| FieldWikipedia.WikipediaField.Change | modules/ui/fields/wikipedia.js:169-203 | leaves ChangedFrom the previous inputs, and changes neither the site matrix, the entities, the tags nor the link |
| FieldWikipedia.WikipediaField.ChangeLang | modules/ui/fields/wikipedia.js:158-161 | leaves ChangedFrom the local name of the site the language input names and the previous title, with the wikidata lookup skipped; nothing else changes |
| FieldWikipedia.WikipediaField.Blur | modules/ui/fields/wikipedia.js:164-166 | leaves ChangedFrom the previous inputs with the wikidata lookup skipped; nothing else changes |
| FieldWikipedia.WikipediaField.SetEntityIDs | modules/ui/fields/wikipedia.js:286-290 | stores the entity IDs and changes nothing else |
| QuickPresetsFavorites.FavoriteKey | modules/ui/tools/quick_presets_favorites.js:20-38 | index `i ≤ 9` gets the decimal `i` (so the first key is `0`), index `i ≥ 10` the character with code `i+55` (`A`–`T`); always one character |
| QuickPresetsFavorites.FavoriteKeysDistinct | modules/ui/tools/quick_presets_favorites.js:19-39 | distinct indexes below 30 get distinct keys |
| QuickPresetsFavorites.AssignFavoriteKeys | modules/ui/tools/quick_presets_favorites.js:19-39 | every item gets the key of its index, and no other item changes |
| QuickPresetsFavorites.ItemsToDraw | modules/ui/tools/quick_presets_favorites.js:11-42 | `[]` when presets are being added; otherwise the first 30 favourites, in order, each with its key |
| QuickPresetsFavorites.UnboundKeys | modules/ui/tools/quick_presets_favorites.js:45-47 | the thirty strings `"0"` to `"29"` |
| QuickPresetsFavorites.WillUpdate | modules/ui/tools/quick_presets_favorites.js:44-48 | the loop unbinds exactly UnboundKeys |
| QuickPresetsFavorites.UnbindingMissesLetters | modules/ui/tools/quick_presets_favorites.js:24-47 | the digit keys are unbound, but no letter key is, and the unbound `"10"` to `"29"` are never assigned |
| QuickPresetsRecent.Drawable | modules/ui/tools/quick_presets_recent.js:29-31 | a recent is dropped iff its geometry is exactly `['relation']` |
| QuickPresetsRecent.RecentLimit | modules/ui/tools/quick_presets_recent.js:14-26 | at most 5, and favourites plus recents never exceed 10; exactly 5 when there are at most 5 favourites |
| QuickPresetsRecent.NotAFavoriteApplies | modules/ui/tools/quick_presets_recent.js:20-24 | the filter keeps a recent iff no favourite matches its preset |
| QuickPresetsRecent.RecentsShown | modules/ui/tools/quick_presets_recent.js:26-41 | definition: none for a limit that is not positive, else the first `limit` drawable recents that match no favourite |
| QuickPresetsRecent.RecentsShownSpec | modules/ui/tools/quick_presets_recent.js:26-41 | at most the limit (none when it is not positive); a subsequence of the recents, each drawable and matching no favourite; when fewer than the limit are drawn, every drawable non-favourite is drawn |
| QuickPresetsRecent.SelectRecents | modules/ui/tools/quick_presets_recent.js:12-41 | `[]` when presets are being added; otherwise the loop with its early break picks RecentsShown for the first 10 favourites |
| QuickPresetsRecent.AssignRecentKeys | modules/ui/tools/quick_presets_recent.js:43-56 | every item gets the label its total index has under the given rule (as written or continued), and no other item changes |
| QuickPresetsRecent.ItemsToDraw | modules/ui/tools/quick_presets_recent.js:11-59 | `[]` when presets are being added; otherwise the recents shown; under the source's rule item k gets RecentKey of its total index (favourites + k), under the continued rule ContinuedKey; no other recent changes |
| QuickPresetsRecent.RecentsShownNoDuplicates | modules/ui/tools/quick_presets_recent.js:29-40 | the items drawn are distinct when the recents are |
| QuickPresetsRecent.RecentKey | modules/ui/tools/quick_presets_recent.js:43-56 | as written: total index 9 gets `0`, a smaller one its successor, 10 and more no key |
| QuickPresetsRecent.ContinuedKey | modules/ui/tools/quick_presets_recent.js:43-56 | corrected: total index `i` below 10 gets `i`, as on the favourites tool |
| QuickPresetsRecent.EveryShownRecentHasKey | modules/ui/tools/quick_presets_recent.js:26-56 | because of the limit every recent drawn has a total index below 10, so it gets a key |
| QuickPresetsRecent.RecentKeyCollidesWithFavorite | modules/ui/tools/quick_presets_recent.js:48-49 | with 5 to 9 favourites, as written, a recent drawn gets `0`, the first favourite's key |
| QuickPresetsRecent.ContinuedKeysDistinct | modules/ui/tools/quick_presets_recent.js:43-56 | with the corrected label no recent shares a key with a favourite, and recents get distinct keys |

## Left out

- Rendering, CSS classing, keybinding, menus, surface focus, map following and
  the double-click midpoint insertion of the select mode: they are display and
  event wiring.
- `context.loadEntities`, `loadTileAtLoc`, `validator().validate()`,
  `window.setTimeout`, `forceVisible`, `fileFetcher.get`, the Wikipedia search
  combo (`titleCombo`) and `wikidata.itemsByTitle`: these are network and
  timer calls. The model returns what would be requested, or takes the answer
  as a parameter. `titleCombo` is not modelled.
- The commented-out Bézier curve (`bezier` in the action file) is dead code over
  floating point, and `console.log` is output; neither is modelled.
- `_extent.percentContainedIn(...) < 0.8` is floating-point geometry. It is a
  boolean parameter of `DisabledReason` and `Disabled`.
- `decodeURIComponent`/`encodeURIComponent`: percent-coding is not modelled.
  They are parameters returning `None` where they would throw.
- `toLowerCase`/`toUpperCase` map ASCII letters only.
- The graph's `parentWays`, `entity.geometry`, `way.isClosed`,
  `utilArrayIntersection` and `preset.matches` are library code that is not
  part of this model. Their stand-ins are the graph's indices, the vertex and
  closed-way rules above, an order-preserving filter, and a `matches`
  parameter.
- `ModeSelect.SelectMode.PreviousVertex`: requires a sound graph index
  (`Valid`), which the editor's graph maintains. The same holds for
  `NextVertex`, `FirstVertex`, `LastVertex`, `Bezierizable` and the
  `BezierizeOperation` constructor.
- `ModeSelect.SelectMode.Enter`: the extra operations are given by the caller
  as summaries (ID, available). Constructing the operations is not part of
  this model. Of selectElements only the pruning and the remembered-parent
  update are modelled; the `_suppressMenu` flag it sets for a selected
  relation belongs to the menu, and the return to browse mode when the
  selected elements left the view depends on the rendered surface.
- `ModeSelect.First` and `ModeSelect.Last`: on a way without nodes the source
  enters a select mode on `[undefined]`, which prunes it away and falls back
  to browse mode; the model reports no target instead.
- `FieldWikipedia.SyncTag`: cuts the tag after a number of characters, while
  `substr` counts UTF-16 code units, so for titles with characters outside
  the Basic Multilingual Plane the cut falls elsewhere. Strings are sequences
  of characters throughout the model.
- `FieldWikipedia.ViewUrlReadsBack`: requires the encoded anchor to be
  non-empty and free of line terminators, as `encodeURIComponent`'s output is.
- `OperationBezierize.BezierizeOperation.IntendedOutcome`: the batch is shown
  to succeed in a graph that holds every node its ways list, as the editor's
  graph does; the graph here does not carry that as an invariant.
- Graph identity (`context.graph() !== initGraph`) is modelled as value
  inequality of graphs.
- `FieldWikipedia.WikidataFollowUp`: requires every edited entity to be present
  when the graph is unchanged, because `context.entity` would otherwise throw.
- `FieldWikipedia.WithWikidata`: when no Q-id is found, the source keeps the
  `wikidata` key with the value `undefined`. `Tags` holds only strings and
  cannot represent that, so the model removes the tag.
- `FieldWikipedia.WikipediaField.UpdateForTags`: tag values are strings, so the
  `typeof` check is reduced to the tag being present.
- `OperationBezierize.BezierizeOperation.Available`: its contract leaves the
  toolbar direction open; `NeverEndVertex` and `AvailableIffAllBezierizable`
  state that the toolbar test never removes the operation.
- `QuickPresetsFavorites.AssignFavoriteKeys`: requires the items to be distinct
  objects, so that one item is not written twice. The same holds for
  `QuickPresetsFavorites.ItemsToDraw`, `QuickPresetsRecent.AssignRecentKeys`
  and `QuickPresetsRecent.ItemsToDraw`.
- `QuickPresetsFavorites.FavoriteKey`: requires an index below 30, which the
  `slice(0, 30)` guarantees.
- `ActionBezierize.Binomial`: takes naturals; JavaScript numbers are not
  modelled, and neither are negative or fractional arguments or rounding of
  large products.
- The binding of labels to keys happens in the shared
  `modules/ui/tools/quick_presets.js`, which is not part of this model.
  `UnbindingMissesLetters` states only which keys the favourites tool unbinds.
- Parent cycling combined with vertex stepping over several moves is not
  stated as one lemma. `NextOfDistinct` covers one move at a time.

## Findings

| source | as written | input that shows it | evidently intended | confidence | as-written member | corrected member |
|---|---|---|---|---|---|---|
| modules/operations/bezierize.js:38 | `actionBezierize(entityID, way, context.projection)` is given the vertex ID as `nodeIDs` and the way as `projection`, while the action is declared `(nodeIDs, projection)` | the vertex `n22` in the middle of the way `n1, n22, n3`: the batch throws, since a string has no `.map`; the vertex `n223` is disabled with `needs_3_points` | the action receives the previous node, the vertex and the next node, and the map projection | not executed; high | OperationBezierize.AsWrittenCombinedActionThrows | OperationBezierize.ChooseAction |
| modules/ui/tools/quick_presets_recent.js:48-52 | recents keep the labels `1`…`9`, `0` while the favourites tool now starts at `0` (lines 24-25) | five favourites (keys `0`–`4`) and five recents: the recent at total index 9 gets `0`, the first favourite's key | recents continue the favourites' numbering: total index `i` gets `i` | not executed; moderate | QuickPresetsRecent.RecentKeyCollidesWithFavorite | QuickPresetsRecent.ContinuedKey |
