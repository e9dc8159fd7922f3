# Family tree: the graph store and its forms, in Dafny

This project models the state logic of a small family-tree web application.
The application keeps its family graph in memory: people are nodes, relationships are links between node ids.
It also keeps lists of photos ("memories") and events.
Around that store sit a handful of forms and panels that turn user input into store updates.

The model covers:

- **the store** (`GraphStore`): adding a relative next to an anchor person, with the derived generation, colour group and link direction; cascade delete; replace-by-id updates; the sign-in rename of the user's own node; prepending photos; appending and replacing events; the seeded family.
- **the events page** (`EventsPage`): the add/edit form, the invitee picker, the submit that builds a new or updated event, the date-ordered listing, and the invitee avatars with the `+n` badge.
- **the timeline page** (`TimelinePage`): the add-memory form, the tag picker, the submit with its defaults and reset, the save-button rule, and the newest-first listing.
- **the family-group dialog** (`ManageFamily`): the members loaded on opening, the member picker, All/None, the trimmed-name save, the confirmed delete, and the case-insensitive search.
- **the sign-in page** (`AuthPage`): the display name derived from the email, and the login/sign-up switch.
- **the profile side panel** (`ProfilePanel`): the view/edit/save/cancel/delete state machine and the generation caption.
- **"My Profile"** (`MyProfile`): the form seeded from the user's node, and the merge on submit.
- **the add-member dialog** (`AddNodeModal`): the initial form, the submit guard and disabled rule, the anchor choices, and the bio-generator request.
- **end-to-end flows** (`Flows`): lemmas that chain a page's output into the store's handler.

Shared building blocks:

- `Prelude`: `Option` and JavaScript string truthiness (`||` fallbacks).
- `Records`: the records, and lookup by id.
- `Selection`: the list-as-set toggle the three pickers share.
- `Sorting`: a stable sort by an integer key, as `Array.prototype.sort` is stable.
- `Text`: ASCII lower-casing, `includes`, `split(c)[0]`, `trim()` and decimal rendering.

Modelling conventions:

- Dates are integer day keys; a cleared date input is `None`.
- The clock-derived ids and "today" are parameters of the operations that use them.
- The answer to a `confirm` prompt is a boolean parameter.
- A form field that the code only reads through its truthiness or an `|| ''` fallback is a plain string, with `""` standing for "unset".
- Record fields that the code keeps `undefined` (a node's age, an event's time) are `Option`s.
- The profile panel renders only when it has a node and is open; its operations take that node as given.
- The family dialog and the add-member dialog render nothing while closed. Their operations are only reachable while open.

## Model

| member | source | states |
|---|---|---|
| GraphStore.GroupOf | App.tsx:146 | the colour group `Math.abs(generation) % 5 + 1` always lies in 1..5 |
| GraphStore.GroupSymmetric | App.tsx:146 | ancestors and descendants at the same distance from the user get the same group |
| GraphStore.AddRelative | App.tsx:101-158 | an unknown anchor leaves nodes and links unchanged; otherwise exactly one node and one link are appended and both prefixes are untouched. The new node has the given id, name, label and close-family flag, the bio or 'New family member', its colour group is `GroupOf` of its generation (so in 1..5), and image, age, gender, location, occupation and family list are unset. A parent is one generation above the anchor and linked parent-of from the new id to the anchor; a child is one below and linked parent-of from the anchor; a spouse or sibling shares the anchor's generation and is linked spouse-of or sibling-of from the anchor |
| GraphStore.AddKeepsLinksResolved | App.tsx:150-157 | if every link endpoint names an existing node before an add, the same holds afterwards |
| GraphStore.AddKeepsIdsUnique | App.tsx:110-157 | an add with a fresh id keeps node ids unique |
| GraphStore.AddKeepsGenerationsConsistent | App.tsx:113-157 | an add with a fresh id keeps every parent exactly one generation above its child |
| GraphStore.DropNode | App.tsx:168 | the surviving nodes are exactly those whose id differs |
| GraphStore.DropLinks | App.tsx:169 | the surviving links are exactly those with neither endpoint equal to the id |
| GraphStore.DeleteNode | App.tsx:167-169 | after a delete no node carries the id, every other node survives, and exactly the links touching the id are gone |
| GraphStore.DropNodeConcat | App.tsx:168 | filtering distributes over concatenation, so the survivors keep their relative order |
| GraphStore.DropLinksConcat | App.tsx:169 | the same for links |
| GraphStore.DropNodeAbsent | App.tsx:168 | deleting an id that no node carries leaves the node list unchanged |
| GraphStore.DropLinksUntouched | App.tsx:169 | links that do not touch the id all survive, in order |
| GraphStore.FindAfterDrop | App.tsx:168 | looking up any other id finds the same node after the delete |
| GraphStore.DeleteKeepsLinksResolved | App.tsx:167-169 | a delete keeps every remaining link endpoint resolvable |
| GraphStore.DeleteKeepsGenerationsConsistent | App.tsx:167-169 | a delete keeps every surviving parent link consistent |
| GraphStore.DropAppendedNode | App.tsx:156-168 | deleting a freshly appended node gives back the list it was appended to |
| GraphStore.DropAppendedLink | App.tsx:157-169 | deleting a fresh id's links removes exactly the link appended for it |
| GraphStore.DeleteUndoesAdd | App.tsx:101-173 | deleting a relative just added under a fresh id restores nodes and links exactly |
| GraphStore.CascadeExample | App.tsx:167-169 | with people A, B, C and links A→B, B→C, deleting B leaves A and C and no links |
| GraphStore.UpdateNodes | App.tsx:161 | ids stay in place, entries with another id are untouched, entries with the id become the update |
| GraphStore.UpdatePlacesNode | App.tsx:161 | when the id exists the update is in the list afterwards |
| GraphStore.FindAfterUpdate | App.tsx:161 | a lookup after an update finds the update for its id and the old entry for any other id |
| GraphStore.UpdateKeepsLinksResolved | App.tsx:160-165 | an update keeps every link endpoint resolvable |
| GraphStore.UpdateKeepsGenerationsConsistent | App.tsx:160-165 | an update that keeps the node's generation keeps parent links consistent |
| GraphStore.UpdateCanBreakGenerations | App.tsx:160-165 | an update that changes a generation can make a parent link inconsistent: the invariant is only enforced on add |
| GraphStore.RenameSelf | App.tsx:88-92 | the list keeps its length; only nodes with id '1' are renamed, and only their name changes |
| GraphStore.HandleAddNode | App.tsx:101-158 | adding a relative changes only the graph |
| GraphStore.HandleDeleteNode | App.tsx:167-173 | the graph loses the node and its links; the selection is cleared exactly when it was the deleted node; user, photos and events are unchanged |
| GraphStore.HandleUpdateNode | App.tsx:160-165 | entries with the id are replaced and all others kept; the selection follows the update when it shows that node |
| GraphStore.HandleAuthSuccess | App.tsx:85-93 | the user is stored; node ids, links and every field except node '1''s name are unchanged |
| GraphStore.HandleAddPhoto | App.tsx:175-177 | the new photo is first and the old list follows unchanged |
| GraphStore.HandleAddEvent | App.tsx:179-181 | the new event is last and the old list precedes it unchanged |
| GraphStore.HandleUpdateEvent | App.tsx:183-185 | events with the id are replaced, all others and their order kept |
| GraphStore.UpdateEventWithStoredEvent | App.tsx:183-185 | storing an event already stored under its id changes nothing |
| GraphStore.InitialIdsUnique | App.tsx:15-22 | the seeded people have ids '1'..'6', all distinct |
| GraphStore.InitialFind | App.tsx:15-22 | each seeded id is found at its own position |
| GraphStore.InitialGenerations | App.tsx:15-22 | the seeded generations are 0, -1, -1, 0, 1, 1 |
| GraphStore.InitialLinksResolve | App.tsx:24-32 | every seeded link joins two seeded people |
| GraphStore.SeededLinksConsistent | App.tsx:24-32 | the seeded links are consistent over any node list that places the six ids in the seeded generations |
| GraphStore.InitialGenerationsConsistent | App.tsx:15-32 | every seeded parent link spans exactly one generation |
| GraphStore.UserNode | App.tsx:192 | the node shown as the user always has id '1': the first stored node with that id when present, otherwise the seeded "Me" |
| Records.FindNode | App.tsx:102 | `find` by id fails exactly when no node has the id, and otherwise returns a node of the list with that id |
| Records.FindUnique | App.tsx:102 | with unique ids, `find` returns the node at any index carrying the id |
| Records.FindConcat | App.tsx:102-156 | a lookup in `a + b` looks in `a` first, then in `b` |
| Records.HasNodeIff | App.tsx:102-103 | "some node has the id" as used by the anchor check |
| Records.ReplaceById | App.tsx:161 | replace-by-id keeps the length and changes exactly the entries with the id |
| Records.ReplaceKeepsIds | App.tsx:161 | replace-by-id keeps every position's id |
| Records.ReplaceIdempotent | App.tsx:184 | replacing twice with the same entry is replacing once |
| Records.FoundNodes | components/views/EventsPage.tsx:168-173 | the people found for a list of ids are all in the graph and named by the list, never more than the ids, and every id that names a person contributes the first person with that id |
| Records.FoundNodesConcat | components/views/EventsPage.tsx:168-173 | the lookup of a concatenated id list is the lookup of each part, in order |
| Records.FoundNodesSingle | components/views/EventsPage.tsx:168-173 | a single id yields the first person carrying it, or nothing when nobody does |
| Records.FoundNodesAllResolve | components/views/EventsPage.tsx:168-173 | when every id names a person, exactly one per id, in order |
| Selection.RemoveAll | components/views/EventsPage.tsx:44 | `filter(id => id !== x)` removes every occurrence of x and nothing else |
| Selection.RemoveAllConcat | components/views/EventsPage.tsx:44 | removal distributes over concatenation, so the rest keep their order |
| Selection.RemoveAllAbsent | components/views/EventsPage.tsx:44 | removing an absent id changes nothing |
| Selection.RemoveAllKeepsNoDup | components/views/EventsPage.tsx:44 | removal keeps a duplicate-free list duplicate-free |
| Selection.Toggle | components/views/EventsPage.tsx:40-48 | the toggle flips the id's membership: a present id loses every occurrence and the others keep their order (`RemoveAll`), an absent id is appended at the end |
| Selection.ToggleOthers | components/views/EventsPage.tsx:40-48 | every other id's membership is untouched |
| Selection.ToggleTwiceAbsent | components/views/EventsPage.tsx:42-47 | toggling an absent id twice gives back the original list |
| Selection.ToggleTwicePresent | components/views/EventsPage.tsx:42-47 | toggling a present id twice restores membership, with the id moved to the end |
| Selection.ToggleKeepsNoDup | components/views/EventsPage.tsx:42-47 | toggling keeps a duplicate-free list duplicate-free |
| Sorting.SortBy | components/views/EventsPage.tsx:23 | the sorted list is ordered by the key and is a permutation of the input |
| Sorting.InsertSorted | components/views/EventsPage.tsx:23 | inserting into a sorted list keeps it sorted |
| Sorting.InsertWithKey | components/views/EventsPage.tsx:23 | an insertion lands behind every element that shares its key |
| Sorting.SortByStable | components/views/EventsPage.tsx:23 | elements with equal keys keep their input order, as the stable `Array.prototype.sort` does |
| EventsPage.OpenModal | components/views/EventsPage.tsx:25-38 | opening on an event copies every field of it (title, date, time, location, description, kind, invitees) and remembers its id; opening blank gives empty title, location and description, no time, today's date, a gathering, no invitees and no editing id |
| EventsPage.ToggleInvitee | components/views/EventsPage.tsx:40-49 | an invitee already listed is removed everywhere, an absent one is appended at the end (the `Selection.Toggle` contract); every other invitee's membership is kept, and nothing else in the page changes |
| EventsPage.SelectAll | components/views/EventsPage.tsx:51-53 | the invitees become the ids of all people, one per person, in node order |
| EventsPage.SelectAllKeepsInviteesDistinct | components/views/EventsPage.tsx:42-53 | with distinct person ids, select-all invites nobody twice, and a toggle afterwards keeps it so |
| EventsPage.Submit | components/views/EventsPage.tsx:55-76 | nothing happens unless title, date and location are all set. Otherwise the dialog closes and the event carries the form's fields, '' for a missing description and [] for missing invitees. It is an update under the editing id when that id is non-empty, and an add under the new id otherwise |
| EventsPage.EditRoundTrip | components/views/EventsPage.tsx:25-76 | opening an event and saving it untouched asks to store that very event |
| EventsPage.NewEventFromBlankForm | components/views/EventsPage.tsx:29-76 | a title and location typed into the blank form yield a new gathering today with no time, description or invitees |
| EventsPage.EmptyEditingIdAdds | components/views/EventsPage.tsx:59-73 | an empty editing id counts as none: the event is added under the new id |
| EventsPage.SortedEvents | components/views/EventsPage.tsx:23 | the listing is a permutation of the events in non-decreasing date order |
| EventsPage.SortedEventsStable | components/views/EventsPage.tsx:23 | events on the same day keep their stored order |
| EventsPage.InviteeStrip | components/views/EventsPage.tsx:165-182 | the strip is hidden exactly when nobody is invited. Otherwise the avatars are the people found for the first five invitees, the badge is '+(n-5)' exactly when there are n > 5 invitees, and the invitee count is shown |
| EventsPage.StripCountsEveryone | components/views/EventsPage.tsx:165-182 | when every invitee is a person, the avatars are the first invitees in order and avatars plus badge add up to the invitee count |
| TimelinePage.ToggleTag | components/views/TimelinePage.tsx:33-42 | a tag already listed is removed everywhere, an absent one is appended at the end; every other tag's membership is kept, and nothing else in the page changes |
| TimelinePage.ToggleTagKeepsTagsDistinct | components/views/TimelinePage.tsx:33-42 | tagging never lists a person twice |
| TimelinePage.Submit | components/views/TimelinePage.tsx:44-58 | a photo is produced exactly when url, date and description are set. It carries the form's fields, [] for missing tags and 'ALL' for a missing privacy. The dialog then closes and the form resets to today, no tags, 'ALL' |
| TimelinePage.DisabledMeansNoPhoto | components/views/TimelinePage.tsx:272 | a disabled save button never produces a photo |
| TimelinePage.EnabledSavesIffDated | components/views/TimelinePage.tsx:272 | with the button enabled, a photo is produced exactly when the date is set |
| TimelinePage.EnabledButUndated | components/views/TimelinePage.tsx:44-58 | a cleared date leaves the button enabled while the submit does nothing |
| TimelinePage.SaveResetsForm | components/views/TimelinePage.tsx:56 | after a save the button is disabled and a second submit does nothing |
| TimelinePage.SortedPhotos | components/views/TimelinePage.tsx:20 | the listing is a permutation of the photos in non-increasing date order |
| TimelinePage.SortedPhotosStable | components/views/TimelinePage.tsx:20 | photos with the same sort key (the same day) keep their stored order |
| TimelinePage.TaggedPeople | components/views/TimelinePage.tsx:127-129 | the names under a photo are people named by its tags, and every tag that names a person shows that person |
| TimelinePage.TaggedPeopleAllResolve | components/views/TimelinePage.tsx:127-129 | when every tag names a person, one name per tag, in tag order |
| ManageFamily.Members | components/ManageFamilyModal.tsx:31-33 | an id is selected exactly when a node with that id lists the family, a node without a list listing none |
| ManageFamily.MembersConcat | components/ManageFamilyModal.tsx:31-33 | the members of a concatenated node list are those of each part, in node order |
| ManageFamily.MembersSingle | components/ManageFamilyModal.tsx:31-33 | one node contributes its id exactly when it lists the family |
| ManageFamily.MembersAsWritten | components/ManageFamilyModal.tsx:31-33 | the lookup fails exactly when some node has no family list, and agrees with `Members` otherwise |
| ManageFamily.AsWrittenFailsOnSeededPeople | components/ManageFamilyModal.tsx:31-33 | on the seeded people the lookup fails |
| ManageFamily.AsWrittenFailsAfterAdd | components/ManageFamilyModal.tsx:31-33 | after adding any relative the lookup fails |
| ManageFamily.MembersAgreeWhenListed | components/ManageFamilyModal.tsx:31-33 | when every node has a family list, the two lookups agree |
| ManageFamily.OpenEffect | components/ManageFamilyModal.tsx:26-41 | opening on a family loads its name and exactly its members, in node order; opening blank clears name and members; the search is always cleared; a closed dialog is untouched |
| ManageFamily.ToggleMember | components/ManageFamilyModal.tsx:43-49 | a member already selected is removed everywhere, an absent one is appended at the end; every other member's selection is kept |
| ManageFamily.SelectAll | components/ManageFamilyModal.tsx:109 | "All" selects the ids of all people, one per person, in node order |
| ManageFamily.SelectNone | components/ManageFamilyModal.tsx:117 | "None" selects nobody |
| ManageFamily.SelectAllDistinct | components/ManageFamilyModal.tsx:109 | with distinct person ids, "All" selects nobody twice |
| ManageFamily.SelectNoneUndoesAll | components/ManageFamilyModal.tsx:109-117 | "None" after "All" is "None", and a click after "None" selects exactly the clicked member |
| ManageFamily.Save | components/ManageFamilyModal.tsx:51-56 | a blank or whitespace-only name saves nothing. Otherwise the request carries the trimmed, non-empty name, the selected ids, and the family's id exactly when a family is open |
| ManageFamily.SaveDisabledIffRefused | components/ManageFamilyModal.tsx:187 | the disabled save button and a refused save coincide |
| ManageFamily.SavedNameIsStable | components/ManageFamilyModal.tsx:53-54 | saving the saved name again stores the same name |
| ManageFamily.Delete | components/ManageFamilyModal.tsx:58-63 | a delete is requested exactly for an open family and a confirmed prompt |
| ManageFamily.SaveAndDeleteTargetSameFamily | components/ManageFamilyModal.tsx:51-63 | a save and a confirmed delete of the open family name the same family id; a new family is never deleted |
| ManageFamily.FilterNodes | components/ManageFamilyModal.tsx:67-70 | a node is listed exactly when its lower-cased name, or its non-empty lower-cased label, contains the lower-cased term |
| ManageFamily.FilterNodesConcat | components/ManageFamilyModal.tsx:67-70 | the search keeps node order: the result for `a + b` is the result for `a`, then for `b` |
| ManageFamily.FilterNodesSingle | components/ManageFamilyModal.tsx:67-70 | a single node is listed exactly when it matches |
| ManageFamily.EmptySearchKeepsAll | components/ManageFamilyModal.tsx:67-70 | an empty search lists every node, in order |
| ManageFamily.SearchIgnoresTermCase | components/ManageFamilyModal.tsx:67-70 | lower-casing the term first changes nothing |
| ManageFamily.NarrowingSearch | components/ManageFamilyModal.tsx:67-70 | a node matching a longer term matches every prefix of it |
| Text.Trim | components/ManageFamilyModal.tsx:53-54 | the trimmed name is empty exactly for all-whitespace input, has no outer whitespace, and is the input minus leading and trailing whitespace |
| Text.TrimIdempotent | components/ManageFamilyModal.tsx:53-54 | trimming twice is trimming once |
| Text.IncludesIffOccurs | components/ManageFamilyModal.tsx:68-69 | the scan finds the term exactly when it occurs at some position |
| Text.LowerIdempotent | components/ManageFamilyModal.tsx:68-69 | lower-casing twice is lower-casing once |
| Text.Lower | components/ManageFamilyModal.tsx:68-69 | `toLowerCase` keeps the length and maps each character on its own, 'A'..'Z' to 'a'..'z' and every other character to itself |
| Text.Includes | components/ManageFamilyModal.tsx:68-69 | `includes`: the term is found by a left-to-right scan; a found term is never longer than the text, and the empty term is always found |
| Text.IsWhitespace | components/ManageFamilyModal.tsx:53 | the characters `trim()` strips: tab, line feed, vertical tab, form feed, carriage return, space, no-break space, the Unicode space separators, the line and paragraph separators and the byte-order mark |
| Text.AsciiWhitespace | components/ManageFamilyModal.tsx:53 | of the ASCII characters, `trim()` strips exactly tab, line feed, vertical tab, form feed, carriage return and space |
| Text.BeforeFirst | components/AuthPage.tsx:21 | `split('@')[0]` is the longest prefix without '@', followed by '@' when shorter than the input |
| Text.NatToStringRoundTrip | components/ProfilePanel.tsx:166 | reading back the rendered digits gives the number |
| AuthPage.LoginName | components/AuthPage.tsx:21 | the login name is never empty and never contains '@'. It is a prefix of the email, or 'User' |
| AuthPage.Submit | components/AuthPage.tsx:16-29 | the email passes through. The name is the entered name when signing up, and the login name when signing in |
| AuthPage.LoginNameIsLocalPart | components/AuthPage.tsx:21 | signing in as local@domain shows local |
| AuthPage.LoginNameWithoutAt | components/AuthPage.tsx:21 | an address without '@' is shown whole |
| AuthPage.PasswordIgnored | components/AuthPage.tsx:16-29 | the password never influences the profile |
| AuthPage.ToggleMode | components/AuthPage.tsx:110 | the switch flips the mode and keeps the form |
| AuthPage.ToggleModeTwice | components/AuthPage.tsx:110 | switching twice restores the page |
| ProfilePanel.NodeChanged | components/ProfilePanel.tsx:19-22 | a new node resets the copy to that node and leaves edit mode |
| ProfilePanel.StartEdit | components/ProfilePanel.tsx:193 | the edit button enters edit mode on the same copy |
| ProfilePanel.SetField | components/ProfilePanel.tsx:62-139 | an input sets its own field (an optional one to the typed string) and leaves every other field exactly as it was, unset ones included; id, generation, group, image, gender, close-family flag and family list are kept |
| ProfilePanel.EditsKeepIdentity | components/ProfilePanel.tsx:62-139 | no run of edits changes the person's id or generation |
| ProfilePanel.SetFieldToShownValue | components/ProfilePanel.tsx:62-139 | writing back the shown name or bio changes nothing |
| ProfilePanel.SetOptionalFieldToShownValue | components/ProfilePanel.tsx:62-139 | writing back the value an optional field shows keeps a set field and turns an unset one into the empty string |
| ProfilePanel.BioGenerated | components/ProfilePanel.tsx:26-32 | a generated bio replaces the copy's bio, and only when there is a copy |
| ProfilePanel.Save | components/ProfilePanel.tsx:34-39 | save hands over the copy and leaves edit mode; without a copy nothing happens |
| ProfilePanel.Cancel | components/ProfilePanel.tsx:184 | cancel leaves edit mode with a fresh copy of the node |
| ProfilePanel.CancelDiscardsEdit | components/ProfilePanel.tsx:184 | after an edit that changed a field, the copy cancel restores differs from the edited copy, so the edit is discarded |
| ProfilePanel.Delete | components/ProfilePanel.tsx:41-46 | the shown node's id is handed over exactly when confirmed |
| ProfilePanel.GenerationLabel | components/ProfilePanel.tsx:166 | the caption is "Current (0)" for 0. Otherwise it is a '+' or '-' sign, digits without a leading zero that read back as the distance, and " (Descendant)" or " (Ancestor)" |
| ProfilePanel.GenerationLabelInjective | components/ProfilePanel.tsx:166 | different generations get different captions |
| MyProfile.InitialForm | components/views/MyProfilePage.tsx:11-19 | the form copies name, bio, age, gender, location and occupation; missing details start as ''; a missing or empty label starts as 'Self', so the label is never empty |
| MyProfile.SetField | components/views/MyProfilePage.tsx:59-129 | an input sets its own field to the typed value and keeps the other five fields, the label and the saved notice |
| MyProfile.Merge | components/views/MyProfilePage.tsx:25-28 | exactly the seven form fields are overwritten; id, generation, group, image, close-family flag and family list are kept |
| MyProfile.Submit | components/views/MyProfilePage.tsx:23-31 | the submit hands over the merged node and shows the saved notice |
| MyProfile.UneditedSubmitRoundTrip | components/views/MyProfilePage.tsx:11-28 | with every detail filled in, submitting the untouched form hands back the node itself |
| MyProfile.UneditedSubmitFillsGaps | components/views/MyProfilePage.tsx:11-28 | otherwise the untouched form only fills the gaps, with '' or 'Self' |
| MyProfile.LabelNeverCleared | components/views/MyProfilePage.tsx:11-19 | the stored label is never empty after any edits |
| AddNodeModal.Submit | components/AddNodeModal.tsx:34-40 | the form is handed over unchanged exactly when the button is enabled, that is with a name and an anchor |
| AddNodeModal.InitialFormCannotSubmit | components/AddNodeModal.tsx:14-21 | the fresh dialog cannot submit |
| AddNodeModal.AnchorChoices | components/AddNodeModal.tsx:79-82 | the options are the placeholder '' and then every person's id, in order |
| AddNodeModal.ChoicesNameNodes | components/AddNodeModal.tsx:79-82 | every choice other than the placeholder names an existing person |
| AddNodeModal.BioRequest | components/AddNodeModal.tsx:26-29 | the generator is asked only with a name, and is sent the label or 'Family Member' |
| AddNodeModal.BioArrived | components/AddNodeModal.tsx:30 | the generated bio replaces the bio field and nothing else |
| AddNodeModal.BioArrivalKeepsRequest | components/AddNodeModal.tsx:26-40 | a generated bio changes neither the next request nor whether the form submits, and a submit then carries the generated bio |
| Flows.AddMemberFromDialog | components/AddNodeModal.tsx:34-40 | a named member with a listed anchor adds exactly one person and one link, and a fresh id keeps the graph consistent |
| Flows.PanelSaveKeepsGenerations | components/ProfilePanel.tsx:34-39 | saving the panel after any edits keeps every parent link consistent |
| Flows.PanelDeleteRemovesPerson | components/ProfilePanel.tsx:41-46 | a confirmed removal from the panel removes the person, every link touching them, and the selection |
| Flows.ProfilePageSaveKeepsGenerations | components/views/MyProfilePage.tsx:23-31 | saving "My Profile" keeps every parent link consistent |
| Flows.SignInRenamesSelf | components/AuthPage.tsx:16-29 | after sign-in the user's node carries the displayed name |
| Flows.UntouchedEventEditIsNoOp | components/views/EventsPage.tsx:25-76 | opening an event and saving it untouched leaves the stored events as they were |
| Flows.GeneratedBioReachesNode | components/AddNodeModal.tsx:26-40 | a generated bio that arrives before the submit is the bio the new relative is stored with |
| Flows.AddedPhotoLeadsItsDay | App.tsx:175-177 | an uploaded photo is listed first among the photos of its day, and every other day's listing is unchanged |
| Flows.AddedEventTrailsItsDay | App.tsx:179-181 | a new event is listed last among the events of its day, and every other day's listing is unchanged |

## Left out

- The force-directed graph layout (`components/ForceGraph.tsx`) is not modelled. It is a floating-point physics simulation over a third-party library. The store only ever holds id-to-id links, because the layout works on copies.
- The AI assistant calls are not modelled (`services/geminiService.ts`). Only the request a form makes and the replacement of the bio when an answer arrives are (`AddNodeModal.BioRequest`, `AddNodeModal.BioArrived`, `ProfilePanel.BioGenerated`). The busy flag shown while waiting is left out.
- The welcome letter, chat, home, group and graph pages, the sidebar and the mobile navigation bar are left out. They are presentation over fixed sample data.
- The sample photos and events seeded in `App.tsx` are left out. Their dates are date strings, which this model represents only as day keys.
- Logging out and switching views are left out; they are navigation only.
- Timers are not modelled: the half-second delay before sign-in completes, and the three seconds after which the "saved" notice disappears.
- Reading an uploaded image file into a data URL is not modelled; the url is a form field.
- Parsing a `YYYY-MM-DD` string into a date, and formatting one for display, are not modelled. Dates are integer day keys.
- `toLowerCase` is modelled for ASCII letters only; Unicode case mapping is left out.
- Generations and colour groups are unbounded integers. JavaScript numbers are doubles, so `Math.abs(g) % 5` is exact only below 2^53 and `${g}` switches to exponent form from 10^21; neither is reachable, because each add moves a generation by one.
- Browser-side form validation (`required`, `maxLength`) is left out. The model follows the handlers' own checks.
- `EventsPage.Submit`: the event kind is always set in the form, because both ways of opening it set one. The `as any` cast that would pass an unset kind through is not modelled.
- `ProfilePanel.SetField`: the edit inputs only exist in edit mode with a copy (`isEditing && editedNode`), so that is required rather than modelled.
- `MyProfile.InitialForm`: the page seeds its form once, when it first mounts. Later changes to the user's node do not reach an open form, and the model does not track mounting.

## Findings

| source | as written | input that shows it | evidently intended | confidence | as-written member | corrected member |
|---|---|---|---|---|---|---|
| components/ManageFamilyModal.tsx:31-33 | `n.familyIds.includes(family.id)` on every node. No node created by the application has `familyIds`: not the seeded ones (App.tsx:15-22), and not those added by `handleAddNode` (App.tsx:140-148). | A caller that opens the dialog on any family and passes it the application's people (the seeded ones or any added one): `familyIds` is undefined, so `includes` raises a TypeError. | A node without a family list belongs to no family: a missing list is read as empty. | not executed; medium: App.tsx never sets the field, but no modelled file renders the dialog and the `GraphNode` type in types.ts declares no `familyIds` (nor `isCloseFamily`), so that file is older than the dialog and the caller that supplies its nodes is not part of this model | ManageFamily.MembersAsWritten | ManageFamily.Members |

The counterexample lemmas for the as-written lookup are `ManageFamily.AsWrittenFailsOnSeededPeople` and `ManageFamily.AsWrittenFailsAfterAdd`. `ManageFamily.OpenEffect` uses the corrected `ManageFamily.Members`, and `ManageFamily.MembersAgreeWhenListed` shows the two agree whenever every node has a family list.
